/** What one tick does to each task (pkg/timewheel/core.go:91-153): tasks
    outside the slot being walked are untouched, a waiting task in it loses
    one rotation and stays, a due task fires once with the right job and is
    dropped or rescheduled, and an unknown key never fires. */
module TickFacts {
  import opened Tasks
  import opened Wheel
  import Core
  import opened Rolling

  /** Key `k` is out of the cursor's way: in another slot, or in the slot
      being walked but already passed. */
  predicate Behind(w: TimeWheel, i: nat, k: Key)
    requires Valid(w) && k in w.taskRecords
  {
    w.taskRecords[k] != w.currentPosition || Find(w.slots[w.currentPosition], k) < i
  }

  /** Key `k` is in the slot being walked, at or after the cursor. */
  predicate Ahead(w: TimeWheel, i: nat, k: Key)
    requires Valid(w) && k in w.taskRecords
  {
    w.taskRecords[k] == w.currentPosition && Find(w.slots[w.currentPosition], k) >= i
  }

  // Tracking a key other than the visited one through the edits of a visit.

  lemma TrackDecrement(w: TimeWheel, i: nat, k: Key)
    requires Valid(w) && i < |w.slots[w.currentPosition]| && w.slots[w.currentPosition][i].circle > 0
    requires k in w.taskRecords && k != w.slots[w.currentPosition][i].key
    ensures var w1 := DecrementAt(w, w.currentPosition, i);
            && k in w1.taskRecords && w1.taskRecords[k] == w.taskRecords[k]
            && TaskOf(w1, k) == TaskOf(w, k)
            && (w.taskRecords[k] == w.currentPosition ==>
                  Find(w1.slots[w.currentPosition], k) == Find(w.slots[w.currentPosition], k))
  {
    var cur := w.currentPosition;
    var s := w.slots[cur];
    var w1 := DecrementAt(w, cur, i);
    assert TaskOf(w1, k) == TaskOf(w, k) by {
      DecrementFrame(w, cur, i);
    }
    if w.taskRecords[k] == cur {
      assert w1.slots[cur] == s[i := s[i].(circle := s[i].circle - 1)];
      FindAfterReplace(s, i, s[i].(circle := s[i].circle - 1), k);
    }
  }

  lemma TrackRemove(w: TimeWheel, i: nat, k: Key)
    requires Valid(w) && i < |w.slots[w.currentPosition]|
    requires k in w.taskRecords && k != w.slots[w.currentPosition][i].key
    ensures var r := RemoveAt(w, w.currentPosition, i);
            && k in r.taskRecords && r.taskRecords[k] == w.taskRecords[k]
            && TaskOf(r, k) == TaskOf(w, k)
            && (w.taskRecords[k] == w.currentPosition ==>
                  var j := Find(w.slots[w.currentPosition], k);
                  Find(r.slots[w.currentPosition], k) == if j < i then j else j - 1)
  {
    var cur := w.currentPosition;
    RemoveFrameAll(w, cur, i);
    if w.taskRecords[k] == cur {
      FindAfterRemove(w.slots[cur], i, k);
    }
  }

  lemma TrackRequeue(w: TimeWheel, next: Option<Task>, k: Key)
    requires Valid(w) && (next.Some? ==> next.value.key !in w.taskRecords)
    requires k in w.taskRecords
    ensures var r := Requeue(w, next);
            && k in r.taskRecords && r.taskRecords[k] == w.taskRecords[k]
            && TaskOf(r, k) == TaskOf(w, k)
            && (w.taskRecords[k] == w.currentPosition ==>
                  Find(r.slots[w.currentPosition], k) == Find(w.slots[w.currentPosition], k))
  {
    if next.Some? {
      var r := Core.PlaceTask(w, next.value, Core.ByInterval);
      var cur := w.currentPosition;
      if w.taskRecords[k] == cur && Core.PlacementOf(w, next.value, Core.ByInterval).position == cur {
        FindAfterAppend(w.slots[cur], TaskOf(r, next.value.key), k);
      }
    }
  }

  /** Both edits of a firing, for a key other than the fired one. */
  lemma TrackFire(w: TimeWheel, i: nat, k: Key)
    requires Valid(w) && i < |w.slots[w.currentPosition]|
    requires k in w.taskRecords && k != w.slots[w.currentPosition][i].key
    ensures var cur, t := w.currentPosition, w.slots[w.currentPosition][i];
            var r := Requeue(RemoveAt(w, cur, i), Reschedule(t));
            && k in r.taskRecords && r.taskRecords[k] == w.taskRecords[k]
            && TaskOf(r, k) == TaskOf(w, k)
            && (w.taskRecords[k] == cur ==>
                  var j := Find(w.slots[cur], k);
                  Find(r.slots[cur], k) == if j < i then j else j - 1)
  {
    var cur, t := w.currentPosition, w.slots[w.currentPosition][i];
    TrackRemove(w, i, k);
    TrackRequeue(RemoveAt(w, cur, i), Reschedule(t), k);
  }

  /** The visited key itself after a firing: gone from the index, or indexed
      under the slot its reschedule was placed in. */
  lemma RequeuedTask(w: TimeWheel, next: Option<Task>)
    requires Valid(w) && (next.Some? ==> next.value.key !in w.taskRecords)
    ensures next.None? ==> Requeue(w, next) == w
    ensures next.Some? ==>
              var r := Requeue(w, next);
              var p := Target(w, next.value);
              && next.value.key in r.taskRecords && r.taskRecords[next.value.key] == p.position
              && TaskOf(r, next.value.key) == next.value.(position := p.position, circle := p.circle)
  {
  }

  /** Visiting the element under the cursor leaves every other indexed task
      unchanged and fires none of them; keys behind the cursor stay behind
      the new cursor, and keys ahead of it stay ahead. */
  lemma VisitOther(w: TimeWheel, i: nat, fuel: nat, k: Key)
    requires Valid(w) && i < |w.slots[w.currentPosition]|
    requires k in w.taskRecords && k != w.slots[w.currentPosition][i].key
    requires !VisitAt(w, i, fuel).Stuck?
    ensures var v := VisitAt(w, i, fuel);
            && k in v.wheel.taskRecords && v.wheel.taskRecords[k] == w.taskRecords[k]
            && TaskOf(v.wheel, k) == TaskOf(w, k) && FiringsOf(v.fired, k) == []
            && (v.Continue? && Behind(w, i, k) ==> Behind(v.wheel, v.cursor, k))
            && (Ahead(w, i, k) ==> v.Continue? && Ahead(v.wheel, v.cursor, k))
  {
    if w.slots[w.currentPosition][i].circle > 0 {
      VisitOtherPassing(w, i, fuel, k);
    } else {
      VisitOtherFiring(w, i, fuel, k);
    }
  }

  /** VisitOther, when the task under the cursor is waiting. */
  lemma VisitOtherPassing(w: TimeWheel, i: nat, fuel: nat, k: Key)
    requires Valid(w) && i < |w.slots[w.currentPosition]|
    requires k in w.taskRecords && k != w.slots[w.currentPosition][i].key
    requires w.slots[w.currentPosition][i].circle > 0
    ensures var v := VisitAt(w, i, fuel);
            && k in v.wheel.taskRecords && v.wheel.taskRecords[k] == w.taskRecords[k]
            && TaskOf(v.wheel, k) == TaskOf(w, k) && FiringsOf(v.fired, k) == []
            && (v.Continue? && Behind(w, i, k) ==> Behind(v.wheel, v.cursor, k))
            && (Ahead(w, i, k) ==> v.Continue? && Ahead(v.wheel, v.cursor, k))
  {
    var cur := w.currentPosition;
    if w.taskRecords[k] == cur {
      assert Find(w.slots[cur], k) != i;
    }
    TrackDecrement(w, i, k);
  }

  /** VisitOther, when the task under the cursor is due. */
  lemma VisitOtherFiring(w: TimeWheel, i: nat, fuel: nat, k: Key)
    requires Valid(w) && i < |w.slots[w.currentPosition]|
    requires k in w.taskRecords && k != w.slots[w.currentPosition][i].key
    requires !VisitAt(w, i, fuel).Stuck?
    requires w.slots[w.currentPosition][i].circle == 0
    ensures var v := VisitAt(w, i, fuel);
            && k in v.wheel.taskRecords && v.wheel.taskRecords[k] == w.taskRecords[k]
            && TaskOf(v.wheel, k) == TaskOf(w, k) && FiringsOf(v.fired, k) == []
            && (v.Continue? && Behind(w, i, k) ==> Behind(v.wheel, v.cursor, k))
            && (Ahead(w, i, k) ==> v.Continue? && Ahead(v.wheel, v.cursor, k))
  {
    var cur := w.currentPosition;
    var t := w.slots[cur][i];
    if w.taskRecords[k] == cur {
      assert Find(w.slots[cur], k) != i;
    }
    TrackFire(w, i, k);
    assert FiringsOf([Firing(t.key, Dispatch(t.job, w.job))], k) == [];
  }

  lemma CursorIsNotBehind(w: TimeWheel, i: nat, k: Key)
    requires Valid(w) && i < |w.slots[w.currentPosition]| && k in w.taskRecords && Behind(w, i, k)
    ensures w.slots[w.currentPosition][i].key != k
  {
    var s := w.slots[w.currentPosition];
    assert s[i] in w.slots[w.currentPosition];
    if s[i].key == k {
      FindUnique(s, k, i);
    }
  }

  /** The walk leaves a task it has passed, or one in another slot, alone
      and never fires it. */
  lemma {:induction false} ScanFrame(w: TimeWheel, i: nat, fuel: nat, k: Key)
    requires Valid(w) && i <= |w.slots[w.currentPosition]|
    requires k in w.taskRecords && Behind(w, i, k)
    requires ScanSlot(w, i, fuel).Done?
    ensures var r := ScanSlot(w, i, fuel);
            && k in r.wheel.taskRecords && r.wheel.taskRecords[k] == w.taskRecords[k]
            && TaskOf(r.wheel, k) == TaskOf(w, k) && FiringsOf(r.fired, k) == []
    decreases fuel, |w.slots[w.currentPosition]| - i
  {
    if i < |w.slots[w.currentPosition]| {
      var v := VisitAt(w, i, fuel);
      CursorIsNotBehind(w, i, k);
      VisitOther(w, i, fuel, k);
      if v.Continue? {
        ScanFrame(v.wheel, v.cursor, v.fuel, k);
        FiringsOfAppend(v.fired, ScanSlot(v.wheel, v.cursor, v.fuel).fired, k);
      }
    }
  }

  /** A key that is not indexed is in no slot, so a visit never fires it
      and never indexes it. */
  lemma VisitAbsent(w: TimeWheel, i: nat, fuel: nat, k: Key)
    requires Valid(w) && i < |w.slots[w.currentPosition]|
    requires k !in w.taskRecords
    requires !VisitAt(w, i, fuel).Stuck?
    ensures var v := VisitAt(w, i, fuel);
            k !in v.wheel.taskRecords && FiringsOf(v.fired, k) == []
  {
    if w.slots[w.currentPosition][i].circle > 0 {
      VisitAbsentPassing(w, i, fuel, k);
    } else {
      VisitAbsentFiring(w, i, fuel, k);
    }
  }

  /** VisitAbsent, when the task under the cursor is waiting. */
  lemma VisitAbsentPassing(w: TimeWheel, i: nat, fuel: nat, k: Key)
    requires Valid(w) && i < |w.slots[w.currentPosition]|
    requires k !in w.taskRecords
    requires w.slots[w.currentPosition][i].circle > 0
    ensures var v := VisitAt(w, i, fuel);
            k !in v.wheel.taskRecords && FiringsOf(v.fired, k) == []
  {
    var t := w.slots[w.currentPosition][i];
    assert t in w.slots[w.currentPosition];
  }

  /** VisitAbsent, when the task under the cursor is due. */
  lemma VisitAbsentFiring(w: TimeWheel, i: nat, fuel: nat, k: Key)
    requires Valid(w) && i < |w.slots[w.currentPosition]|
    requires k !in w.taskRecords
    requires !VisitAt(w, i, fuel).Stuck?
    requires w.slots[w.currentPosition][i].circle == 0
    ensures var v := VisitAt(w, i, fuel);
            k !in v.wheel.taskRecords && FiringsOf(v.fired, k) == []
  {
    var cur := w.currentPosition;
    var t := w.slots[cur][i];
    assert t in w.slots[cur];
    var removed := RemoveAt(w, cur, i);
    RequeuedTask(removed, Reschedule(t));
    assert FiringsOf([Firing(t.key, Dispatch(t.job, w.job))], k) == [];
  }

  lemma {:induction false} ScanAbsent(w: TimeWheel, i: nat, fuel: nat, k: Key)
    requires Valid(w) && i <= |w.slots[w.currentPosition]|
    requires k !in w.taskRecords
    requires ScanSlot(w, i, fuel).Done?
    ensures var r := ScanSlot(w, i, fuel);
            k !in r.wheel.taskRecords && FiringsOf(r.fired, k) == []
    decreases fuel, |w.slots[w.currentPosition]| - i
  {
    if i < |w.slots[w.currentPosition]| {
      var v := VisitAt(w, i, fuel);
      VisitAbsent(w, i, fuel, k);
      if v.Continue? {
        ScanAbsent(v.wheel, v.cursor, v.fuel, k);
        FiringsOfAppend(v.fired, ScanSlot(v.wheel, v.cursor, v.fuel).fired, k);
      }
    }
  }

  /** Visiting the task under the cursor itself. */
  lemma VisitHit(w: TimeWheel, i: nat, fuel: nat)
    requires Valid(w) && i < |w.slots[w.currentPosition]|
    requires !VisitAt(w, i, fuel).Stuck?
    ensures var t := w.slots[w.currentPosition][i];
            var k := t.key;
            var v := VisitAt(w, i, fuel);
            && (t.circle > 0 ==>
                  && v.Continue? && FiringsOf(v.fired, k) == []
                  && k in v.wheel.taskRecords && v.wheel.taskRecords[k] == w.currentPosition
                  && TaskOf(v.wheel, k) == t.(circle := t.circle - 1)
                  && Behind(v.wheel, v.cursor, k))
            && (t.circle == 0 ==> FiringsOf(v.fired, k) == [Firing(k, Dispatch(t.job, w.job))])
            && (t.circle == 0 && Reschedule(t).None? ==> k !in v.wheel.taskRecords)
            && (t.circle == 0 && Reschedule(t).Some? ==>
                  var p := Target(w, Reschedule(t).value);
                  && k in v.wheel.taskRecords && v.wheel.taskRecords[k] == p.position
                  && TaskOf(v.wheel, k) == Reschedule(t).value.(position := p.position, circle := p.circle)
                  && (v.Continue? && p.position != w.currentPosition ==> Behind(v.wheel, v.cursor, k)))
  {
    if w.slots[w.currentPosition][i].circle > 0 {
      VisitHitPassing(w, i, fuel);
    } else {
      VisitHitFiring(w, i, fuel);
    }
  }

  /** VisitHit, when the task is waiting. */
  lemma VisitHitPassing(w: TimeWheel, i: nat, fuel: nat)
    requires Valid(w) && i < |w.slots[w.currentPosition]|
    requires w.slots[w.currentPosition][i].circle > 0
    ensures var t := w.slots[w.currentPosition][i];
            var k := t.key;
            var v := VisitAt(w, i, fuel);
            && v.Continue? && FiringsOf(v.fired, k) == []
            && k in v.wheel.taskRecords && v.wheel.taskRecords[k] == w.currentPosition
            && TaskOf(v.wheel, k) == t.(circle := t.circle - 1)
            && Behind(v.wheel, v.cursor, k)
  {
    var cur := w.currentPosition;
    var s := w.slots[cur];
    var t := s[i];
    assert t in w.slots[cur];
    DecrementFrame(w, cur, i);
    FindUnique(s, t.key, i);
    FindAfterReplace(s, i, t.(circle := t.circle - 1), t.key);
  }

  /** VisitHit, when the task is due. */
  lemma VisitHitFiring(w: TimeWheel, i: nat, fuel: nat)
    requires Valid(w) && i < |w.slots[w.currentPosition]|
    requires !VisitAt(w, i, fuel).Stuck?
    requires w.slots[w.currentPosition][i].circle == 0
    ensures var t := w.slots[w.currentPosition][i];
            var k := t.key;
            var v := VisitAt(w, i, fuel);
            && FiringsOf(v.fired, k) == [Firing(k, Dispatch(t.job, w.job))]
            && (Reschedule(t).None? ==> k !in v.wheel.taskRecords)
            && (Reschedule(t).Some? ==>
                  var p := Target(w, Reschedule(t).value);
                  && k in v.wheel.taskRecords && v.wheel.taskRecords[k] == p.position
                  && TaskOf(v.wheel, k) == Reschedule(t).value.(position := p.position, circle := p.circle)
                  && (v.Continue? && p.position != w.currentPosition ==> Behind(v.wheel, v.cursor, k)))
  {
    var cur := w.currentPosition;
    var t := w.slots[cur][i];
    assert t in w.slots[cur];
    var removed := RemoveAt(w, cur, i);
    RequeuedTask(removed, Reschedule(t));
  }

  /** What walking a slot does to the task `t` it reaches, read off the
      wheel `r` and the firings `fired` the walk leaves. A waiting task loses
      one rotation and stays where it is. A due task fires with its own job,
      else the wheel's, and then is gone from the index or rescheduled by
      interval; when the reschedule lands in another slot, or there is none,
      it fires exactly once. */
  predicate Reached(w: TimeWheel, t: Task, r: TimeWheel, fired: seq<Firing>)
    requires Valid(w) && Valid(r)
  {
    && (t.circle > 0 ==>
          && t.key in r.taskRecords && r.taskRecords[t.key] == w.currentPosition
          && TaskOf(r, t.key) == t.(circle := t.circle - 1)
          && FiringsOf(fired, t.key) == [])
    && (t.circle == 0 && !BackInCurrentSlot(w, Reschedule(t)) ==>
          && FiringsOf(fired, t.key) == [Firing(t.key, Dispatch(t.job, w.job))]
          && (Reschedule(t).None? ==> t.key !in r.taskRecords)
          && (Reschedule(t).Some? ==>
                var p := Target(w, Reschedule(t).value);
                && t.key in r.taskRecords && r.taskRecords[t.key] == p.position
                && TaskOf(r, t.key) == Reschedule(t).value.(position := p.position, circle := p.circle)))
  }

  /** The walk reaches every task ahead of the cursor. */
  lemma {:induction false} ScanReaches(w: TimeWheel, i: nat, fuel: nat, k: Key)
    requires Valid(w) && i <= |w.slots[w.currentPosition]|
    requires k in w.taskRecords && Ahead(w, i, k)
    requires ScanSlot(w, i, fuel).Done?
    ensures Reached(w, TaskOf(w, k), ScanSlot(w, i, fuel).wheel, ScanSlot(w, i, fuel).fired)
    decreases fuel, |w.slots[w.currentPosition]| - i
  {
    if Find(w.slots[w.currentPosition], k) > i {
      ScanPasses(w, i, fuel, k);
    } else {
      ScanHits(w, i, fuel, k);
    }
  }

  lemma {:induction false} ScanPasses(w: TimeWheel, i: nat, fuel: nat, k: Key)
    requires Valid(w) && i <= |w.slots[w.currentPosition]|
    requires k in w.taskRecords && Ahead(w, i, k) && Find(w.slots[w.currentPosition], k) > i
    requires ScanSlot(w, i, fuel).Done?
    ensures Reached(w, TaskOf(w, k), ScanSlot(w, i, fuel).wheel, ScanSlot(w, i, fuel).fired)
    decreases fuel, |w.slots[w.currentPosition]| - i, 0
  {
    var v := VisitAt(w, i, fuel);
    VisitOther(w, i, fuel, k);
    var rest := ScanSlot(v.wheel, v.cursor, v.fuel);
    ScanReaches(v.wheel, v.cursor, v.fuel, k);
    FiringsOfAppend(v.fired, rest.fired, k);
    assert ScanSlot(w, i, fuel) == Done(rest.wheel, v.fired + rest.fired);
  }

  lemma ScanHits(w: TimeWheel, i: nat, fuel: nat, k: Key)
    requires Valid(w) && i < |w.slots[w.currentPosition]|
    requires k in w.taskRecords && Ahead(w, i, k) && Find(w.slots[w.currentPosition], k) == i
    requires ScanSlot(w, i, fuel).Done?
    ensures Reached(w, TaskOf(w, k), ScanSlot(w, i, fuel).wheel, ScanSlot(w, i, fuel).fired)
  {
    var t := w.slots[w.currentPosition][i];
    var v := VisitAt(w, i, fuel);
    VisitHit(w, i, fuel);
    if v.Continue? {
      var rest := ScanSlot(v.wheel, v.cursor, v.fuel);
      assert ScanSlot(w, i, fuel) == Done(rest.wheel, v.fired + rest.fired);
      FiringsOfAppend(v.fired, rest.fired, k);
      if t.circle > 0 {
        ScanFrame(v.wheel, v.cursor, v.fuel, k);
      } else if Reschedule(t).None? {
        ScanAbsent(v.wheel, v.cursor, v.fuel, k);
      } else if !BackInCurrentSlot(w, Reschedule(t)) {
        ScanFrame(v.wheel, v.cursor, v.fuel, k);
      }
    }
  }

  /** Moving the wheel's hand changes no task and no index entry. */
  lemma MoveHand(w: TimeWheel, p: nat, k: Key)
    requires Valid(w) && p < w.slotNums && k in w.taskRecords
    ensures Valid(w.(currentPosition := p)) && TaskOf(w.(currentPosition := p), k) == TaskOf(w, k)
  {
  }

  /** A tick leaves every task outside the current slot alone and fires
      none of them. */
  lemma TickLeavesOtherSlots(w: TimeWheel, fuel: nat, k: Key)
    requires Valid(w) && k in w.taskRecords && w.taskRecords[k] != w.currentPosition
    requires Tick(w, fuel).Ticked?
    ensures var r := Tick(w, fuel);
            && k in r.wheel.taskRecords && r.wheel.taskRecords[k] == w.taskRecords[k]
            && TaskOf(r.wheel, k) == TaskOf(w, k) && FiringsOf(r.fired, k) == []
  {
    var s := ScanSlot(w, 0, fuel);
    ScanFrame(w, 0, fuel, k);
    MoveHand(s.wheel, NextPosition(w), k);
  }

  /** A tick handles each task of the current slot as Reached describes:
      a waiting task loses one rotation and stays, a due task fires with the
      right job and is dropped or rescheduled. */
  lemma TickHandlesCurrentSlot(w: TimeWheel, fuel: nat, k: Key)
    requires Valid(w) && k in w.taskRecords && w.taskRecords[k] == w.currentPosition
    requires Tick(w, fuel).Ticked?
    ensures Reached(w, TaskOf(w, k), Tick(w, fuel).wheel, Tick(w, fuel).fired)
  {
    var s := ScanSlot(w, 0, fuel);
    ScanReaches(w, 0, fuel, k);
    var t := TaskOf(w, k);
    if t.key in s.wheel.taskRecords {
      MoveHand(s.wheel, NextPosition(w), k);
    }
  }

  /** In particular, a waiting task of the current slot stays there, loses
      one rotation and does not fire. */
  lemma TickPassesWaiting(w: TimeWheel, fuel: nat, k: Key)
    requires Valid(w) && k in w.taskRecords && w.taskRecords[k] == w.currentPosition
    requires TaskOf(w, k).circle > 0 && Tick(w, fuel).Ticked?
    ensures var t, r := TaskOf(w, k), Tick(w, fuel).wheel;
            && k in r.taskRecords && r.taskRecords[k] == w.currentPosition
            && TaskOf(r, k) == t.(circle := t.circle - 1)
            && FiringsOf(Tick(w, fuel).fired, k) == []
  {
    TickHandlesCurrentSlot(w, fuel, k);
  }

  /** A key that is not indexed never fires and does not become indexed. */
  lemma TickIgnoresUnknownKey(w: TimeWheel, fuel: nat, k: Key)
    requires Valid(w) && k !in w.taskRecords
    requires Tick(w, fuel).Ticked?
    ensures k !in Tick(w, fuel).wheel.taskRecords && FiringsOf(Tick(w, fuel).fired, k) == []
  {
    ScanAbsent(w, 0, fuel, k);
  }
}

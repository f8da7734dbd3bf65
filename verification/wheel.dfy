/** The wheel record (pkg/time_wheel/timewheel.go): a ring of slots, each an
    ordered list of tasks, plus the key index `taskRecords` from task key to
    the slot holding it. The three primitive edits every transition is built
    from live here with proofs that they keep slots and index in agreement. */
module Wheel {
  import opened Tasks

  datatype TimeWheel = TimeWheel(
    interval: nat,               // seconds per tick
    slotNums: nat,
    currentPosition: nat,
    slots: seq<seq<Task>>,
    taskRecords: map<Key, nat>,  // key -> slot of the task
    job: Option<Job>)            // default job

  /** The keys of the tasks in one slot. */
  function KeysIn(s: seq<Task>): set<Key>
  {
    set t | t in s :: t.key
  }

  predicate DistinctKeys(s: seq<Task>)
  {
    forall i, j :: 0 <= i < j < |s| ==> s[i].key != s[j].key
  }

  /** The index and the slots agree: every task sits in the slot its
      `position` names and the index maps its key there; keys are unique in a
      slot; and every indexed key is found in the slot the index names. */
  predicate IndexAgrees(slots: seq<seq<Task>>, records: map<Key, nat>)
  {
    && (forall p, t :: 0 <= p < |slots| && t in slots[p] ==>
          t.position == p && t.key in records && records[t.key] == p)
    && (forall p {:trigger DistinctKeys(slots[p])} :: 0 <= p < |slots| ==> DistinctKeys(slots[p]))
    && (forall k :: k in records ==> records[k] < |slots| && k in KeysIn(slots[records[k]]))
  }

  predicate Valid(w: TimeWheel)
  {
    && w.interval >= 1
    && w.slotNums >= 1
    && w.currentPosition < w.slotNums
    && |w.slots| == w.slotNums
    && IndexAgrees(w.slots, w.taskRecords)
  }

  /** Where the task with key `k` sits in a slot. */
  function Find(s: seq<Task>, k: Key): (i: nat)
    requires k in KeysIn(s)
    ensures i < |s| && s[i].key == k
    ensures forall j :: 0 <= j < i ==> s[j].key != k
  {
    if s[0].key == k then 0
    else
      assert k in KeysIn(s[1..]) by {
        var t :| t in s && t.key == k;
        assert t in s[1..];
      }
      1 + Find(s[1..], k)
  }

  /** The first element carrying key `k` is the one Find returns. */
  lemma {:induction false} FindIsFirst(s: seq<Task>, k: Key, j: nat)
    requires j < |s| && s[j].key == k
    requires forall i :: 0 <= i < j ==> s[i].key != k
    ensures k in KeysIn(s) && Find(s, k) == j
  {
    assert s[j] in s;
    if j > 0 {
      assert s[1..][j-1] == s[j];
      FindIsFirst(s[1..], k, j - 1);
    }
  }

  /** Where a key sits after the element at `i` is taken out. */
  lemma FindAfterRemove(s: seq<Task>, i: nat, k: Key)
    requires i < |s| && k in KeysIn(s) && k != s[i].key
    ensures k in KeysIn(s[..i] + s[i+1..])
    ensures Find(s[..i] + s[i+1..], k) == if Find(s, k) < i then Find(s, k) else Find(s, k) - 1
  {
    var j := Find(s, k);
    var s' := s[..i] + s[i+1..];
    var j' := if j < i then j else j - 1;
    assert s'[j'] == s[j];
    forall a | 0 <= a < j' ensures s'[a].key != k {
      assert s'[a] == s[if a < i then a else a + 1];
    }
    FindIsFirst(s', k, j');
  }

  /** Appending does not move a key already present. */
  lemma FindAfterAppend(s: seq<Task>, t: Task, k: Key)
    requires k in KeysIn(s)
    ensures k in KeysIn(s + [t]) && Find(s + [t], k) == Find(s, k)
  {
    var j := Find(s, k);
    assert (s + [t])[j] == s[j];
    forall a | 0 <= a < j ensures (s + [t])[a].key != k {
      assert (s + [t])[a] == s[a];
    }
    FindIsFirst(s + [t], k, j);
  }

  /** Replacing an element by one with the same key moves no key. */
  lemma FindAfterReplace(s: seq<Task>, i: nat, t: Task, k: Key)
    requires i < |s| && t.key == s[i].key && k in KeysIn(s)
    ensures k in KeysIn(s[i := t]) && Find(s[i := t], k) == Find(s, k)
  {
    var j := Find(s, k);
    FindIsFirst(s[i := t], k, j);
  }

  lemma FindUnique(s: seq<Task>, k: Key, j: nat)
    requires DistinctKeys(s) && j < |s| && s[j].key == k
    ensures k in KeysIn(s) && Find(s, k) == j
  {
    assert s[j] in s;
  }

  /** The task indexed under `k`. */
  function TaskOf(w: TimeWheel, k: Key): (t: Task)
    requires Valid(w) && k in w.taskRecords
    ensures t.key == k && t.position == w.taskRecords[k]
    ensures t in w.slots[w.taskRecords[k]]
  {
    var s := w.slots[w.taskRecords[k]];
    s[Find(s, k)]
  }

  /** A key is in some slot exactly when it is indexed. */
  lemma IndexedIffStored(w: TimeWheel, p: nat, k: Key)
    requires Valid(w) && p < |w.slots|
    ensures k in KeysIn(w.slots[p]) <==> k in w.taskRecords && w.taskRecords[k] == p
  {
    if k in KeysIn(w.slots[p]) {
      var t :| t in w.slots[p] && t.key == k;
    }
  }

  lemma KeysInAppend(s: seq<Task>, t: Task)
    ensures KeysIn(s + [t]) == KeysIn(s) + {t.key}
  {
    forall k | k in KeysIn(s) ensures k in KeysIn(s + [t]) {
      var u :| u in s && u.key == k;
      assert u in s + [t];
    }
    assert t in s + [t];
  }

  lemma KeysInRemove(s: seq<Task>, i: nat)
    requires DistinctKeys(s) && i < |s|
    ensures KeysIn(s[..i] + s[i+1..]) == KeysIn(s) - {s[i].key}
  {
    KeysInRemoveFewer(s, i);
    KeysInRemoveKeeps(s, i);
  }

  lemma KeysInRemoveFewer(s: seq<Task>, i: nat)
    requires DistinctKeys(s) && i < |s|
    ensures KeysIn(s[..i] + s[i+1..]) <= KeysIn(s) - {s[i].key}
  {
    var s' := s[..i] + s[i+1..];
    forall k | k in KeysIn(s') ensures k in KeysIn(s) - {s[i].key} {
      var u :| u in s' && u.key == k;
      var j :| 0 <= j < |s'| && s'[j] == u;
      if j < i { assert s[j] == u; } else { assert s[j+1] == u; }
    }
  }

  lemma KeysInRemoveKeeps(s: seq<Task>, i: nat)
    requires i < |s|
    ensures KeysIn(s) - {s[i].key} <= KeysIn(s[..i] + s[i+1..])
  {
    var s' := s[..i] + s[i+1..];
    forall k | k in KeysIn(s) - {s[i].key} ensures k in KeysIn(s') {
      var u :| u in s && u.key == k;
      var j :| 0 <= j < |s| && s[j] == u;
      if j < i { assert s'[j] == u; } else { assert s'[j-1] == u; }
    }
  }

  /** Appends `t`, re-homed to slot `pos`, at the back of that slot and
      indexes its key there (pkg/timewheel/core.go:203-207). */
  function Insert(w: TimeWheel, t: Task, pos: nat): (r: TimeWheel)
    requires Valid(w) && pos < w.slotNums && t.key !in w.taskRecords
    ensures Valid(r)
    ensures r.interval == w.interval && r.slotNums == w.slotNums
    ensures r.currentPosition == w.currentPosition && r.job == w.job
    ensures r.slots == w.slots[pos := w.slots[pos] + [t.(position := pos)]]
    ensures r.taskRecords == w.taskRecords[t.key := pos]
  {
    InsertKeepsIndex(w, t, pos);
    w.(slots := w.slots[pos := w.slots[pos] + [t.(position := pos)]],
       taskRecords := w.taskRecords[t.key := pos])
  }

  /** After an insertion the new key leads to the appended task and every
      other indexed task is unchanged. */
  lemma InsertFrame(w: TimeWheel, t: Task, pos: nat)
    requires Valid(w) && pos < w.slotNums && t.key !in w.taskRecords
    ensures TaskOf(Insert(w, t, pos), t.key) == t.(position := pos)
    ensures forall k :: k in w.taskRecords ==> TaskOf(Insert(w, t, pos), k) == TaskOf(w, k)
  {
    var r := Insert(w, t, pos);
    FindUnique(r.slots[pos], t.key, |w.slots[pos]|);
    forall k | k in w.taskRecords ensures TaskOf(r, k) == TaskOf(w, k) {
      var q := w.taskRecords[k];
      var j := Find(w.slots[q], k);
      assert r.slots[q][j] == w.slots[q][j];
      FindUnique(r.slots[q], k, j);
    }
  }

  lemma InsertKeepsIndex(w: TimeWheel, t: Task, pos: nat)
    requires Valid(w) && pos < w.slotNums && t.key !in w.taskRecords
    ensures IndexAgrees(w.slots[pos := w.slots[pos] + [t.(position := pos)]],
                        w.taskRecords[t.key := pos])
  {
    var t' := t.(position := pos);
    var slots := w.slots[pos := w.slots[pos] + [t']];
    var records := w.taskRecords[t.key := pos];
    forall p, u: Task | 0 <= p < |slots| && u in slots[p]
      ensures u.position == p && u.key in records && records[u.key] == p
    {
      if p == pos && u !in w.slots[pos] {
        assert u == t';
      }
    }
    forall p | 0 <= p < |slots| ensures DistinctKeys(slots[p]) {
      assert DistinctKeys(w.slots[p]);
      if p == pos {
        forall i, j | 0 <= i < j < |slots[p]| ensures slots[p][i].key != slots[p][j].key {
          if j == |w.slots[pos]| {
            assert slots[p][i] in w.slots[pos];
          }
        }
      }
    }
    forall k | k in records ensures records[k] < |slots| && k in KeysIn(slots[records[k]]) {
      KeysInAppend(w.slots[pos], t');
    }
  }

  /** Taking back the task just appended restores the wheel. */
  lemma RemoveUndoesInsert(w: TimeWheel, t: Task, pos: nat)
    requires Valid(w) && pos < w.slotNums && t.key !in w.taskRecords
    ensures |Insert(w, t, pos).slots[pos]| == |w.slots[pos]| + 1
    ensures RemoveAt(Insert(w, t, pos), pos, |w.slots[pos]|) == w
  {
    var w' := Insert(w, t, pos);
    var s := w.slots[pos];
    var r := RemoveAt(w', pos, |s|);
    assert r.slots == w.slots by {
      assert w'.slots[pos][..|s|] + w'.slots[pos][|s|+1..] == s;
    }
    assert r.taskRecords == w.taskRecords by {
      assert r.taskRecords.Keys == w.taskRecords.Keys;
    }
  }

  /** What taking the `i`-th element out of a slot does to it. */
  lemma SlotRemove(s: seq<Task>, i: nat)
    requires DistinctKeys(s) && i < |s|
    ensures |s[..i] + s[i+1..]| == |s| - 1
    ensures forall u :: u in s[..i] + s[i+1..] ==> u in s
    ensures DistinctKeys(s[..i] + s[i+1..])
    ensures KeysIn(s[..i] + s[i+1..]) == KeysIn(s) - {s[i].key}
  {
    var s' := s[..i] + s[i+1..];
    assert forall j :: 0 <= j < |s'| ==> s'[j] == s[if j < i then j else j + 1];
    forall u | u in s' ensures u in s {
      var j :| 0 <= j < |s'| && s'[j] == u;
      assert s[if j < i then j else j + 1] == u;
    }
    forall a, b | 0 <= a < b < |s'| ensures s'[a].key != s'[b].key {
      assert s'[a] == s[if a < i then a else a + 1];
      assert s'[b] == s[if b < i then b else b + 1];
    }
    KeysInRemove(s, i);
  }

  /** Takes the `i`-th task out of slot `p` and drops its key from the index
      (pkg/timewheel/core.go:125-127, 268-273). */
  function RemoveAt(w: TimeWheel, p: nat, i: nat): (r: TimeWheel)
    requires Valid(w) && p < w.slotNums && i < |w.slots[p]|
    ensures Valid(r)
    ensures r.interval == w.interval && r.slotNums == w.slotNums
    ensures r.currentPosition == w.currentPosition && r.job == w.job
    ensures r.slots == w.slots[p := w.slots[p][..i] + w.slots[p][i+1..]]
    ensures r.taskRecords == w.taskRecords - {w.slots[p][i].key}
  {
    RemoveKeepsIndex(w, p, i);
    w.(slots := w.slots[p := w.slots[p][..i] + w.slots[p][i+1..]],
       taskRecords := w.taskRecords - {w.slots[p][i].key})
  }

  /** After a removal the key is in no slot and every task still indexed is
      unchanged. */
  lemma RemoveFrameAll(w: TimeWheel, p: nat, i: nat)
    requires Valid(w) && p < w.slotNums && i < |w.slots[p]|
    ensures forall q :: 0 <= q < w.slotNums ==> w.slots[p][i].key !in KeysIn(RemoveAt(w, p, i).slots[q])
    ensures forall k :: k in RemoveAt(w, p, i).taskRecords ==> TaskOf(RemoveAt(w, p, i), k) == TaskOf(w, k)
  {
    var r := RemoveAt(w, p, i);
    forall q | 0 <= q < w.slotNums ensures w.slots[p][i].key !in KeysIn(r.slots[q]) {
      IndexedIffStored(r, q, w.slots[p][i].key);
    }
    forall k | k in r.taskRecords ensures TaskOf(r, k) == TaskOf(w, k) {
      RemoveFrame(w, p, i, r, k);
    }
  }

  lemma RemoveFrame(w: TimeWheel, p: nat, i: nat, r: TimeWheel, k: Key)
    requires Valid(w) && p < w.slotNums && i < |w.slots[p]|
    requires r == w.(slots := w.slots[p := w.slots[p][..i] + w.slots[p][i+1..]],
                     taskRecords := w.taskRecords - {w.slots[p][i].key})
    requires Valid(r) && k in r.taskRecords
    ensures k in w.taskRecords && r.taskRecords[k] == w.taskRecords[k] && TaskOf(r, k) == TaskOf(w, k)
  {
    var s := w.slots[p];
    var q := w.taskRecords[k];
    var j := Find(w.slots[q], k);
    assert DistinctKeys(w.slots[q]);
    if q == p {
      SlotRemove(s, i);
      assert j != i;
      var j' := if j < i then j else j - 1;
      assert r.slots[q][j'] == s[j];
      FindUnique(r.slots[q], k, j');
    } else {
      FindUnique(r.slots[q], k, j);
    }
  }

  lemma RemoveKeepsIndex(w: TimeWheel, p: nat, i: nat)
    requires Valid(w) && p < w.slotNums && i < |w.slots[p]|
    ensures IndexAgrees(w.slots[p := w.slots[p][..i] + w.slots[p][i+1..]],
                        w.taskRecords - {w.slots[p][i].key})
  {
    RemoveKeepsPlaces(w, p, i);
    assert DistinctKeys(w.slots[p]);
    SlotRemove(w.slots[p], i);
  }

  /** After a removal every remaining task is still indexed under its own
      slot. */
  lemma RemoveKeepsPlaces(w: TimeWheel, p: nat, i: nat)
    requires Valid(w) && p < w.slotNums && i < |w.slots[p]|
    ensures var slots := w.slots[p := w.slots[p][..i] + w.slots[p][i+1..]];
            var records := w.taskRecords - {w.slots[p][i].key};
            forall q, u: Task | 0 <= q < |slots| && u in slots[q] ::
              u.position == q && u.key in records && records[u.key] == q
  {
    var s := w.slots[p];
    var s' := s[..i] + s[i+1..];
    var slots := w.slots[p := s'];
    var records := w.taskRecords - {s[i].key};
    assert DistinctKeys(s);
    forall q, u: Task | 0 <= q < |slots| && u in slots[q]
      ensures u.position == q && u.key in records && records[u.key] == q
    {
      assert s[i] in w.slots[p];
      if q == p {
        assert u in s;
        var j :| 0 <= j < |s| && s[j] == u;
        assert j != i;
      }
    }
  }

  /** Replacing an element by one with the same key keeps the slot's keys. */
  lemma SlotReplace(s: seq<Task>, i: nat, t: Task)
    requires i < |s| && t.key == s[i].key
    ensures KeysIn(s[i := t]) == KeysIn(s)
    ensures DistinctKeys(s) ==> DistinctKeys(s[i := t])
  {
    var s' := s[i := t];
    forall k | k in KeysIn(s) ensures k in KeysIn(s') {
      var u :| u in s && u.key == k;
      var j :| 0 <= j < |s| && s[j] == u;
      assert s'[j] in s';
    }
    forall k | k in KeysIn(s') ensures k in KeysIn(s) {
      var u :| u in s' && u.key == k;
      var j :| 0 <= j < |s'| && s'[j] == u;
      assert s[j] in s;
    }
  }

  /** Counts one rotation off the `i`-th task of slot `p`, leaving it in
      place (pkg/timewheel/core.go:102-109). */
  function DecrementAt(w: TimeWheel, p: nat, i: nat): (r: TimeWheel)
    requires Valid(w) && p < w.slotNums && i < |w.slots[p]| && w.slots[p][i].circle > 0
    ensures Valid(r)
    ensures r.interval == w.interval && r.slotNums == w.slotNums
    ensures r.currentPosition == w.currentPosition && r.job == w.job
    ensures r.taskRecords == w.taskRecords
    ensures r.slots == w.slots[p := w.slots[p][i := w.slots[p][i].(circle := w.slots[p][i].circle - 1)]]
  {
    DecrementKeepsIndex(w, p, i);
    w.(slots := w.slots[p := w.slots[p][i := w.slots[p][i].(circle := w.slots[p][i].circle - 1)]])
  }

  /** Only the decremented task changes, and only in its rotation count. */
  lemma DecrementFrame(w: TimeWheel, p: nat, i: nat)
    requires Valid(w) && p < w.slotNums && i < |w.slots[p]| && w.slots[p][i].circle > 0
    ensures forall k :: k in w.taskRecords ==>
              TaskOf(DecrementAt(w, p, i), k)
                == if k == w.slots[p][i].key then w.slots[p][i].(circle := w.slots[p][i].circle - 1)
                   else TaskOf(w, k)
  {
    var r := DecrementAt(w, p, i);
    var t := w.slots[p][i];
    forall k | k in r.taskRecords
      ensures TaskOf(r, k) == if k == t.key then t.(circle := t.circle - 1) else TaskOf(w, k)
    {
      var q := w.taskRecords[k];
      var j := Find(w.slots[q], k);
      assert DistinctKeys(w.slots[q]) && DistinctKeys(r.slots[q]);
      FindUnique(r.slots[q], k, j);
      if k == t.key {
        assert w.slots[p][i] in w.slots[p];
        FindUnique(w.slots[p], k, i);
      }
    }
  }

  lemma DecrementKeepsIndex(w: TimeWheel, p: nat, i: nat)
    requires Valid(w) && p < w.slotNums && i < |w.slots[p]| && w.slots[p][i].circle > 0
    ensures IndexAgrees(w.slots[p := w.slots[p][i := w.slots[p][i].(circle := w.slots[p][i].circle - 1)]],
                        w.taskRecords)
  {
    var s := w.slots[p];
    var t := s[i];
    var s' := s[i := t.(circle := t.circle - 1)];
    var slots := w.slots[p := s'];
    SlotReplace(s, i, t.(circle := t.circle - 1));
    forall q, u: Task | 0 <= q < |slots| && u in slots[q]
      ensures u.position == q && u.key in w.taskRecords && w.taskRecords[u.key] == q
    {
      if q == p {
        var j :| 0 <= j < |s'| && s'[j] == u;
        assert s[j] in s;
      }
    }
  }
}

/** The task record of the timer wheel (pkg/time_wheel/task.go) and the
    record of a job dispatch that replaces `go job(key)`. */
module Tasks {

  datatype Option<T> = None | Some(value: T)

  /** Task keys: any comparable value in the source; strings here. */
  type Key = string

  /** A job is a callback of the task's key; the model keeps only its identity. */
  datatype Job = Job(id: nat)

  /** Which job a firing dispatched: the task's own, the wheel's default, or
      none at all (the source then only prints a diagnostic). */
  datatype Dispatched = RanTaskJob(job: Job) | RanWheelJob(job: Job) | NoJob

  /** One visit of a due task during a tick. */
  datatype Firing = Firing(key: Key, dispatched: Dispatched)

  /** A scheduled unit of work. `executeCycle` is the period in whole seconds,
      `position` the slot it sits in, `circle` the full rotations it still has
      to wait, `times` its remaining repeat count (negative: forever). The
      creation time only enters placement through the elapsed seconds. */
  datatype Task = Task(
    key: Key,
    executeCycle: nat,
    position: nat,
    circle: nat,
    times: int,
    job: Option<Job>)

  /** The job a due task runs: its own job first, then the wheel's. */
  function Dispatch(taskJob: Option<Job>, wheelJob: Option<Job>): (d: Dispatched)
    ensures d.RanTaskJob? <==> taskJob.Some?
    ensures d.RanTaskJob? ==> d.job == taskJob.value
    ensures d.RanWheelJob? <==> taskJob.None? && wheelJob.Some?
    ensures d.RanWheelJob? ==> d.job == wheelJob.value
  {
    if taskJob.Some? then RanTaskJob(taskJob.value)
    else if wheelJob.Some? then RanWheelJob(wheelJob.value)
    else NoJob
  }

  /** The firings of `k` in a log, in order. */
  function FiringsOf(fired: seq<Firing>, k: Key): (r: seq<Firing>)
    ensures forall f :: f in r ==> f in fired && f.key == k
  {
    if fired == [] then []
    else (if fired[0].key == k then [fired[0]] else []) + FiringsOf(fired[1..], k)
  }

  lemma {:induction false} FiringsOfAppend(a: seq<Firing>, b: seq<Firing>, k: Key)
    ensures FiringsOf(a + b, k) == FiringsOf(a, k) + FiringsOf(b, k)
  {
    if a == [] {
      assert a + b == b;
    } else {
      assert (a + b)[1..] == a[1..] + b;
      FiringsOfAppend(a[1..], b, k);
    }
  }

  /** The keys a firing log names. */
  function FiredKeys(fired: seq<Firing>): set<Key>
  {
    set f | f in fired :: f.key
  }

  /** No key fires twice in one firing log. */
  predicate FiresOnce(fired: seq<Firing>)
  {
    forall a, b :: 0 <= a < b < |fired| ==> fired[a].key != fired[b].key
  }

  /** Every key a firing log names is one of `keys`. */
  predicate FiresWithin(fired: seq<Firing>, keys: set<Key>)
  {
    FiredKeys(fired) <= keys
  }

  /** Putting a firing of a key outside `keys` in front of a log that fires
      within `keys`, each key once, keeps each key once. */
  lemma FiringFirst(f: Firing, rest: seq<Firing>, keys: set<Key>)
    requires FiresOnce(rest) && FiresWithin(rest, keys) && f.key !in keys
    ensures FiresOnce([f] + rest) && FiresWithin([f] + rest, {f.key} + keys)
  {
    var r := [f] + rest;
    assert forall g :: g in r <==> g == f || g in rest;
    assert FiredKeys(r) == {f.key} + FiredKeys(rest);
    forall a, b | 0 <= a < b < |r| ensures r[a].key != r[b].key {
      assert r[b] == rest[b - 1];
      if a > 0 {
        assert r[a] == rest[a - 1];
      }
    }
  }

  /** The keys of two logs one after the other are the keys of each. */
  lemma FiredKeysAppend(a: seq<Firing>, b: seq<Firing>)
    ensures FiredKeys(a + b) == FiredKeys(a) + FiredKeys(b)
  {
    assert forall f :: f in a + b <==> f in a || f in b;
  }

  /** A key a log does not name has no firings in it. */
  lemma NotFired(fired: seq<Firing>, k: Key)
    requires k !in FiredKeys(fired)
    ensures FiringsOf(fired, k) == []
  {
    forall a | 0 <= a < |fired| ensures fired[a].key != k {
      assert fired[a] in fired;
    }
    NoneOf(fired, k);
  }

  lemma {:induction false} NoneOf(fired: seq<Firing>, k: Key)
    requires forall a :: 0 <= a < |fired| ==> fired[a].key != k
    ensures FiringsOf(fired, k) == []
    decreases |fired|
  {
    if fired != [] {
      NoneOf(fired[1..], k);
    }
  }
}

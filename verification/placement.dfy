/** Slot placement (pkg/timewheel/core.go:210-244): where a task goes and how
    many full rotations it waits there, computed from the wheel's current
    position, its slot count and tick length, and the task's period. All
    durations are whole seconds. */
module Placement {

  datatype Placement = Placement(position: int, circle: int)

  /** Go's `%`, which truncates toward zero (the remainder takes the sign of
      the dividend). */
  function GoRem(a: int, b: int): (r: int)
    requires b > 0
    ensures -b < r < b
    ensures a >= 0 ==> 0 <= r
    ensures a <= 0 ==> r <= 0
    ensures (a - r) % b == 0
  {
    if a >= 0 then
      DivModUnique(a - a % b, a / b, 0, b);
      a % b
    else
      DivModUnique(a + (-a) % b, -((-a) / b), 0, b);
      -((-a) % b)
  }

  /** Ticks per period: `executeCycleSeconds / intervalSeconds`. */
  function Ticks(interval: nat, cycleSecs: nat): nat
    requires interval >= 1
  {
    cycleSecs / interval
  }

  /** The edge case both modes share: a task placed in the slot the hand is
      on waits one rotation fewer. During a tick that slot is the one being
      walked, so its next visit is a full rotation away; between ticks, when
      a task is first added, it is the slot the very next tick walks. */
  function Settle(cur: nat, position: nat, circle: nat): (p: Placement)
    ensures p.position == position
    ensures position != cur || circle == 0 ==> p.circle == circle
    ensures position == cur && circle != 0 ==> p.circle == circle - 1
  {
    Placement(position, if position == cur && circle != 0 then circle - 1 else circle)
  }

  /** getPosAndCircleByInterval: used for every reschedule after a firing. */
  function ByInterval(cur: nat, slotNums: nat, interval: nat, cycleSecs: nat): (p: Placement)
    requires slotNums >= 1 && interval >= 1 && cur < slotNums
    ensures 0 <= p.position < slotNums && 0 <= p.circle
  {
    var ticks := Ticks(interval, cycleSecs);
    Settle(cur, (cur + ticks) % slotNums, ticks / slotNums)
  }

  /** getPosAndCircleByCreatedTime: used once, when a task is first added.
      The subtraction is done in seconds, before dividing by the tick length;
      `passedSecs` is the whole seconds elapsed since the task was created. */
  function ByCreatedTime(cur: nat, slotNums: nat, interval: nat, cycleSecs: nat, passedSecs: int): (p: Placement)
    requires slotNums >= 1 && interval >= 1 && cur < slotNums && cycleSecs >= 1
    ensures 0 <= p.position < slotNums && 0 <= p.circle
  {
    var ticks := Ticks(interval, cycleSecs);
    var offset := (cycleSecs - GoRem(passedSecs, cycleSecs)) / interval;
    Settle(cur, (cur + offset) % slotNums, ticks / slotNums)
  }

  /** Counting the tick that is scanning slot `cur` as tick 0, the tick at
      which a task left at `position` with `circle` rotations to wait is
      next visited with no rotation left, if slot `cur` is not visited again
      in the current tick. */
  function DueTick(slotNums: nat, cur: nat, position: nat, circle: nat): nat
    requires slotNums >= 1
  {
    (position - cur - 1) % slotNums + 1 + circle * slotNums
  }

  /** What the settle step buys: a task placed while slot `cur` is walked,
      `position - cur` slots and `circle` rotations ahead, becomes due
      exactly that many ticks later, also when it lands on `cur` itself. */
  lemma SettleDue(n: nat, cur: nat, position: nat, circle: nat)
    requires n >= 1 && cur < n && position < n
    requires position != cur || circle != 0
    ensures var p := Settle(cur, position, circle);
            DueTick(n, cur, p.position, p.circle) == (position - cur) % n + circle * n
  {
    ModNear(position - cur, n);
    ModNear(position - cur - 1, n);
    if position == cur {
      assert (circle - 1) * n == circle * n - n;
    }
  }

  /** Interval placement makes a task due exactly one period after the tick
      that placed it, whenever the period is at least one tick. */
  lemma ByIntervalDue(cur: nat, slotNums: nat, interval: nat, cycleSecs: nat)
    requires slotNums >= 1 && interval >= 1 && cur < slotNums
    requires Ticks(interval, cycleSecs) >= 1
    ensures var p := ByInterval(cur, slotNums, interval, cycleSecs);
            DueTick(slotNums, cur, p.position, p.circle) == Ticks(interval, cycleSecs)
  {
    var n := slotNums;
    var ticks := Ticks(interval, cycleSecs);
    var p := ByInterval(cur, n, interval, cycleSecs);
    var q, m := ticks / n, ticks % n;
    assert ticks == q * n + m;
    ModOfSum(cur, q, m, n);
    assert p.position == (cur + m) % n;
    ModNear(cur + m, n);
    if m == 0 {
      assert p.position == cur;
      assert q >= 1;
      assert p.circle == q - 1;
      ModNear(-1, n);
      assert (q - 1) * n == q * n - n;
    } else {
      assert p.position != cur;
      assert p.circle == q;
      ModNear(p.position - cur - 1, n);
    }
  }

  /** `x + q * n + m` and `x + m` agree modulo `n`. */
  lemma ModOfSum(x: int, q: int, m: int, n: int)
    requires n >= 1
    ensures (x + q * n + m) % n == (x + m) % n
  {
    var a := x + m;
    var d, r := a / n, a % n;
    assert a == d * n + r && 0 <= r < n;
    assert (d + q) * n == d * n + q * n;
    DivModUnique(x + q * n + m, d + q, r, n);
  }

  /** Remainders of values within one modulus of the range [0, n). */
  lemma ModNear(v: int, n: int)
    requires n >= 1 && -n <= v < 2 * n
    ensures v % n == if v < 0 then v + n else if v < n then v else v - n
  {
    if v < 0 {
      DivModUnique(v, -1, v + n, n);
    } else if v < n {
      DivModUnique(v, 0, v, n);
    } else {
      DivModUnique(v, 1, v - n, n);
    }
  }

  lemma MulAtLeast(k: int, n: int)
    requires k >= 1 && n >= 1
    ensures k * n >= n
  {
    if k > 1 {
      MulAtLeast(k - 1, n);
      assert k * n == (k - 1) * n + n;
    }
  }

  lemma DivModUnique(a: int, d: int, r: int, n: int)
    requires n >= 1 && a == d * n + r && 0 <= r < n
    ensures a % n == r && a / n == d
  {
    var d', r' := a / n, a % n;
    assert a == d' * n + r' && 0 <= r' < n;
    assert (d - d') * n == d * n - d' * n;
    if d - d' >= 1 {
      MulAtLeast(d - d', n);
    } else if d' - d >= 1 {
      MulAtLeast(d' - d, n);
    }
  }

  /** The due tick pins a placement down: two placements in range with the
      same due tick are the same placement. */
  lemma DueTickInjective(slotNums: nat, cur: nat, p1: nat, c1: nat, p2: nat, c2: nat)
    requires slotNums >= 1 && cur < slotNums && p1 < slotNums && p2 < slotNums
    requires DueTick(slotNums, cur, p1, c1) == DueTick(slotNums, cur, p2, c2)
    ensures p1 == p2 && c1 == c2
  {
    var n := slotNums;
    var r1, r2 := (p1 - cur - 1) % n, (p2 - cur - 1) % n;
    DivModUnique(c1 * n + r1, c1, r1, n);
    DivModUnique(c2 * n + r2, c2, r2, n);
    assert c1 * n + r1 == c2 * n + r2;
    ModNear(p1 - cur - 1, n);
    ModNear(p2 - cur - 1, n);
  }

  /** Interval placement is the one placement with due tick equal to the
      period: an if-and-only-if together with ByIntervalDue. */
  lemma ByIntervalIsOnlyPlacementDueOnTime(cur: nat, slotNums: nat, interval: nat, cycleSecs: nat,
                                           position: nat, circle: nat)
    requires slotNums >= 1 && interval >= 1 && cur < slotNums && position < slotNums
    requires Ticks(interval, cycleSecs) >= 1
    ensures DueTick(slotNums, cur, position, circle) == Ticks(interval, cycleSecs)
            <==> ByInterval(cur, slotNums, interval, cycleSecs) == Placement(position, circle)
  {
    var p := ByInterval(cur, slotNums, interval, cycleSecs);
    ByIntervalDue(cur, slotNums, interval, cycleSecs);
    if DueTick(slotNums, cur, position, circle) == Ticks(interval, cycleSecs) {
      DueTickInjective(slotNums, cur, position, circle, p.position, p.circle);
    }
  }

  /** A period shorter than one tick lands in the current slot with no
      rotation to wait. */
  lemma ByIntervalSubTick(cur: nat, slotNums: nat, interval: nat, cycleSecs: nat)
    requires slotNums >= 1 && interval >= 1 && cur < slotNums
    requires cycleSecs < interval
    ensures ByInterval(cur, slotNums, interval, cycleSecs) == Placement(cur, 0)
  {
  }

  /** A task created a whole number of periods ago is placed exactly as an
      interval reschedule would place it; in particular when no time has
      passed. */
  lemma ByCreatedTimeAligned(cur: nat, slotNums: nat, interval: nat, cycleSecs: nat, passedSecs: int)
    requires slotNums >= 1 && interval >= 1 && cur < slotNums && cycleSecs >= 1
    requires passedSecs % cycleSecs == 0
    ensures GoRem(passedSecs, cycleSecs) == 0
    ensures ByCreatedTime(cur, slotNums, interval, cycleSecs, passedSecs)
            == ByInterval(cur, slotNums, interval, cycleSecs)
  {
    if passedSecs < 0 {
      var q := passedSecs / cycleSecs;
      assert passedSecs == q * cycleSecs;
      assert -passedSecs == (-q) * cycleSecs;
      DivModUnique(-passedSecs, -q, 0, cycleSecs);
    }
    assert GoRem(passedSecs, cycleSecs) == 0;
  }

  /** Phase spreading: with one-second ticks and a period no longer than a
      rotation, tasks of the same period created at non-negative elapsed
      times land in the same slot exactly when their elapsed times agree
      modulo the period. */
  lemma ByCreatedTimeSpreads(cur: nat, slotNums: nat, cycleSecs: nat, passed1: nat, passed2: nat)
    requires slotNums >= 1 && cur < slotNums && 1 <= cycleSecs <= slotNums
    ensures ByCreatedTime(cur, slotNums, 1, cycleSecs, passed1).position
              == ByCreatedTime(cur, slotNums, 1, cycleSecs, passed2).position
            <==> passed1 % cycleSecs == passed2 % cycleSecs
  {
    var o1, o2 := cycleSecs - passed1 % cycleSecs, cycleSecs - passed2 % cycleSecs;
    assert ByCreatedTime(cur, slotNums, 1, cycleSecs, passed1).position == (cur + o1) % slotNums;
    assert ByCreatedTime(cur, slotNums, 1, cycleSecs, passed2).position == (cur + o2) % slotNums;
    ModNear(cur + o1, slotNums);
    ModNear(cur + o2, slotNums);
  }
}

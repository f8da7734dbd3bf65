/** The countdown one task goes through on the wheel, with the wheel itself
    abstracted away: how many ticks it still waits and how many repeats it
    has left. A due task fires, then is dropped when no repeat is left or
    waits one period again (pkg/timewheel/core.go:100-143). */
module Countdown {
  import Placement

  /** What the wheel holds for one key. */
  datatype KeyState = Gone | Pending(wait: nat, times: int)

  /** The repeat count left after a firing that is followed by a
      reinsertion: a negative count means forever and stays, a positive one
      is used up by one. */
  function TimesAfter(times: int): int
  {
    if times < 0 then times else times - 1
  }

  /** Whether the task fires on the coming tick. */
  predicate Due(s: KeyState)
  {
    s.Pending? && s.wait == 0
  }

  /** One tick of the countdown for a task whose period is `period` ticks. */
  function Next(s: KeyState, period: nat): (r: KeyState)
    requires period >= 1
    ensures s.Gone? ==> r.Gone?
    ensures s.Pending? && !Due(s) ==> r == Pending(s.wait - 1, s.times)
    ensures Due(s) ==> (r.Gone? <==> s.times == 0)
    ensures Due(s) && s.times != 0 ==> r == Pending(period - 1, TimesAfter(s.times))
  {
    match s
    case Gone => Gone
    case Pending(wait, times) =>
      if wait > 0 then Pending(wait - 1, times)
      else if times == 0 then Gone
      else Pending(period - 1, TimesAfter(times))
  }

  /** The state `j` ticks from now. */
  function After(s: KeyState, period: nat, j: nat): KeyState
    requires period >= 1
    decreases j
  {
    if j == 0 then s else After(Next(s, period), period, j - 1)
  }

  /** How many of the next `m` ticks fire the task. */
  function Fired(s: KeyState, period: nat, m: nat): nat
    requires period >= 1
    decreases m
  {
    if m == 0 then 0 else (if Due(s) then 1 else 0) + Fired(Next(s, period), period, m - 1)
  }

  /** The closed form of the firing ticks: a task that waits `wait` ticks
      fires on tick `wait`, then on every `period`-th tick after it, `times`
      more times, or forever when `times` is negative. */
  predicate FiresOnTick(wait: nat, period: nat, times: int, j: nat)
    requires period >= 1
  {
    && wait <= j && (j - wait) % period == 0
    && (times < 0 || (j - wait) / period <= times)
  }

  lemma FiresOnTickAfterFiring(period: nat, times: int, j: nat)
    requires period >= 1 && times != 0 && j >= 1
    ensures FiresOnTick(0, period, times, j) == FiresOnTick(period - 1, period, TimesAfter(times), j - 1)
  {
    if j >= period {
      var q, r := (j - period) / period, (j - period) % period;
      assert j - period == q * period + r;
      Placement.DivModUnique(j, q + 1, r, period);
    } else {
      Placement.DivModUnique(j, 0, j, period);
    }
  }

  lemma NoFiringAfterLast(period: nat, j: nat)
    requires period >= 1 && j >= 1
    ensures !FiresOnTick(0, period, 0, j)
  {
    if j % period == 0 {
      assert j == j / period * period;
      if j / period >= 1 {
        Placement.MulAtLeast(j / period, period);
      }
    }
  }

  /** The countdown fires on exactly the ticks the closed form names. */
  lemma {:induction false} DueExactlyOnPattern(s: KeyState, period: nat, j: nat)
    requires period >= 1
    ensures Due(After(s, period, j)) <==> s.Pending? && FiresOnTick(s.wait, period, s.times, j)
    decreases j
  {
    if j > 0 {
      DueExactlyOnPattern(Next(s, period), period, j - 1);
      if Due(s) {
        if s.times == 0 {
          NoFiringAfterLast(period, j);
        } else {
          FiresOnTickAfterFiring(period, s.times, j);
        }
      }
    }
  }

  /** Nothing comes back once a task is gone. */
  lemma {:induction false} GoneStaysGone(period: nat, m: nat)
    requires period >= 1
    ensures After(Gone, period, m) == Gone && Fired(Gone, period, m) == 0
    decreases m
  {
    if m > 0 {
      GoneStaysGone(period, m - 1);
    }
  }

  /** A task with `N >= 0` repeats left fires `N + 1` times and is gone once
      its last due tick has passed. */
  lemma {:induction false} FiresRepeatsPlusOne(wait: nat, times: nat, period: nat, m: nat)
    requires period >= 1 && m > wait + times * period
    ensures Fired(Pending(wait, times), period, m) == times + 1
    ensures After(Pending(wait, times), period, m) == Gone
    decreases m
  {
    var s := Pending(wait, times);
    if wait > 0 {
      FiresRepeatsPlusOne(wait - 1, times, period, m - 1);
    } else if times == 0 {
      GoneStaysGone(period, m - 1);
    } else {
      assert (times - 1) * period + period == times * period;
      FiresRepeatsPlusOne(period - 1, times - 1, period, m - 1);
    }
  }
}

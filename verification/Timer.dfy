/**
 mTimer: elapsed milliseconds from two gettimeofday readings, and a check that fires each time
 another set_time has passed, catching up when it was not called in time.
 */
module Timer {

  /** gettimeofday's answer. */
  datatype Clock = Clock(sec: int, usec: int)

  predicate Proper(c: Clock) { 0 <= c.usec < 1_000_000 }

  function Micros(c: Clock): int { c.sec * 1_000_000 + c.usec }

  /** Division of int in C: truncation toward zero. */
  function Truncated(n: int, d: int): int
    requires d > 0
  {
    if n >= 0 then n / d else -(-n / d)
  }

  function Period(start: Clock, now: Clock): int {
    (now.sec - start.sec) * 1000 + Truncated(now.usec - start.usec, 1000)
  }

  /** period() is off by less than a millisecond: rounded down, or up when the microseconds borrow. */
  lemma PeriodIsClose(start: Clock, now: Clock)
    requires Proper(start) && Proper(now)
    ensures var elapsed, p := Micros(now) - Micros(start), Period(start, now);
            if now.usec >= start.usec then p * 1000 <= elapsed < p * 1000 + 1000
            else p * 1000 - 1000 < elapsed <= p * 1000
  {
    var usec := now.usec - start.usec;
    if usec >= 0 {
      assert usec == usec / 1000 * 1000 + usec % 1000;
    } else {
      assert -usec == -usec / 1000 * 1000 + -usec % 1000;
    }
  }

  /** The two roundings never make it step back. */
  lemma PeriodIsMonotone(start: Clock, earlier: Clock, later: Clock)
    requires Proper(start) && Proper(earlier) && Proper(later) && Micros(earlier) <= Micros(later)
    ensures Period(start, earlier) <= Period(start, later)
  {
    PeriodIsClose(start, earlier);
    PeriodIsClose(start, later);
    if earlier.usec < start.usec && later.usec >= start.usec {
      if earlier.sec == later.sec {
        assert Truncated(earlier.usec - start.usec, 1000) <= 0 <= Truncated(later.usec - start.usec, 1000);
      }
    }
  }

  /** The catch-up loop, if it is entered at all, comes to an end. */
  predicate Ends(p: int, count: int, step: int) { step > 0 || p <= count }

  /** The catch-up loop at period p: count is raised by step while it is below p. */
  function CatchUp(p: int, count: int, step: int): (c: int)
    requires Ends(p, count, step)
    ensures c >= count && c >= p && (c == count || c < p + step)
    decreases if count < p then p - count else 0
  {
    if count < p then CatchUp(p, count + step, step) else count
  }

  /** It ends exactly for a positive set_time, or if it need not turn. */
  lemma CatchUpEnds(p: int, count: int, step: int)
    ensures (exists k: nat :: Turned(count, step, k) >= p) <==> Ends(p, count, step)
  {
    if step > 0 {
      var k := if p > count then p - count else 0;
      assert k * step >= k;
      assert Turned(count, step, k) >= p;
    } else if count >= p {
      assert Turned(count, step, 0) >= p;
    } else {
      forall k: nat ensures Turned(count, step, k) < p {
        assert k * step <= 0;
      }
    }
  }

  function Turned(count: int, step: int, k: int): int { count + k * step }

  /** A timer between calls, and how often it has fired. */
  datatype State = State(step: int, count: int, start: Clock, fired: nat)

  datatype Action = SetTo(time: int, clock: Clock) | CheckAt(clock: Clock)

  predicate Fires(s: State, clock: Clock) { Period(s.start, clock) >= s.count }

  /** A check that fires must find an end of the catch-up loop. */
  predicate Allowed(s: State, a: Action) {
    a.CheckAt? && Fires(s, a.clock) ==> Ends(Period(s.start, a.clock), s.count + s.step, s.step)
  }

  function Act(s: State, a: Action): State
    requires Allowed(s, a)
  {
    match a
    case SetTo(time, clock) => s.(step := time, start := clock)
    case CheckAt(clock) =>
      if Fires(s, clock) then
        s.(count := CatchUp(Period(s.start, clock), s.count + s.step, s.step), fired := s.fired + 1)
      else s
  }

  predicate Possible(s: State, actions: seq<Action>)
    decreases |actions|
  {
    actions == [] || (Allowed(s, actions[0]) && Possible(Act(s, actions[0]), actions[1..]))
  }

  function After(s: State, actions: seq<Action>): State
    requires Possible(s, actions)
    decreases |actions|
  {
    if actions == [] then s else After(Act(s, actions[0]), actions[1..])
  }

  class MTimer {
    var setTime: int
    var countTime: int
    var atStart: Clock
    var now: Clock
    ghost var fired: nat

    ghost function View(): State reads this {
      State(setTime, countTime, atStart, fired)
    }

    constructor (clock: Clock)
      ensures View() == State(0, 0, clock, 0)
    {
      setTime, countTime, atStart, now, fired := 0, 0, clock, clock, 0;
    }

    /** set restarts the clock; count_time goes on from where it was. */
    method Set(time: int, clock: Clock)
      modifies this
      ensures View() == Act(old(View()), SetTo(time, clock))
    {
      setTime, atStart := time, clock;
    }

    method Check(clock: Clock) returns (ret: bool)
      requires Allowed(View(), CheckAt(clock))
      modifies this
      ensures now == clock && ret == Fires(old(View()), clock)
      ensures View() == Act(old(View()), CheckAt(clock))
    {
      now := clock;
      var diff := Period(atStart, now);
      ret := false;
      if diff >= countTime {
        ret := true;
        fired := fired + 1;
        countTime := countTime + setTime;
        while countTime < Period(atStart, now)
          invariant now == clock && setTime == old(setTime) && atStart == old(atStart) && fired == old(fired) + 1
          invariant Ends(diff, countTime, setTime)
          invariant CatchUp(diff, countTime, setTime) == CatchUp(diff, old(countTime) + setTime, setTime)
          decreases if countTime < diff then diff - countTime else 0
        {
          countTime := countTime + setTime;
        }
      }
    }
  }

  /** Calls on the object, one after the other, are the run on values. */
  method Perform(timer: MTimer, actions: seq<Action>) returns (rets: seq<bool>)
    requires Possible(timer.View(), actions)
    modifies timer
    ensures timer.View() == After(old(timer.View()), actions)
  {
    rets := [];
    var i := 0;
    assert actions[0..] == actions;
    while i < |actions|
      invariant i <= |actions| && Possible(timer.View(), actions[i..])
      invariant After(timer.View(), actions[i..]) == After(old(timer.View()), actions)
    {
      assert actions[i..][0] == actions[i] && actions[i..][1..] == actions[i + 1..];
      match actions[i] {
        case SetTo(time, clock) => timer.Set(time, clock);
        case CheckAt(clock) =>
          var ret := timer.Check(clock);
          rets := rets + [ret];
      }
      i := i + 1;
    }
  }

  /** After a firing the next one is due between now and one set_time from now. */
  lemma FiredIsBracketed(s: State, clock: Clock)
    requires s.step > 0 && Fires(s, clock)
    ensures Period(s.start, clock) <= Act(s, CheckAt(clock)).count <= Period(s.start, clock) + s.step
    ensures var count := Act(s, CheckAt(clock)).count; count == s.count + s.step || count < Period(s.start, clock) + s.step
  {
  }

  /**
   set restarts the clock: whether the first check after it fires is a matter of the microseconds
   since that set and of the count carried over it, and of no clock before.
   */
  lemma SetRestarts(s: State, time: int, clock: Clock, later: Clock)
    requires Proper(clock) && Proper(later) && time > 0
    ensures var t := Act(s, SetTo(time, clock));
            var u, elapsed := Act(t, CheckAt(later)), Micros(later) - Micros(clock);
            t.fired == s.fired && t.count == s.count && u.step == time && u.start == clock
            && (if later.usec >= clock.usec then elapsed >= s.count * 1000 else elapsed > s.count * 1000 - 1000)
               == (u.fired == s.fired + 1)
            && (u.fired != s.fired + 1 ==> u.fired == s.fired && u.count == s.count)
            && (u.fired == s.fired + 1 ==>
                  u.count >= s.count + time && elapsed < u.count * 1000 + 1000
                  && (u.count > s.count + time ==> (u.count - time) * 1000 < elapsed + 1000))
  {
    var t, p := Act(s, SetTo(time, clock)), Period(clock, later);
    PeriodIsClose(clock, later);
    if p >= s.count {
      FiredIsBracketed(t, later);
    }
  }

  ghost predicate Multiple(n: int, step: int) {
    exists k: int :: Turned(0, step, k) == n
  }

  lemma ShiftMultiple(n: int, step: int, k: int)
    requires Multiple(n, step)
    ensures Multiple(Turned(n, step, k), step)
  {
    var m :| Turned(0, step, m) == n;
    assert (m + k) * step == m * step + k * step;
    assert Turned(0, step, m + k) == Turned(n, step, k);
  }

  /** The loop adds whole steps. */
  lemma {:induction false} CatchUpTurns(p: int, count: int, step: int) returns (k: nat)
    requires Ends(p, count, step)
    ensures CatchUp(p, count, step) == Turned(count, step, k)
    decreases if count < p then p - count else 0
  {
    k := 0;
    if count < p {
      k := CatchUpTurns(p, count + step, step);
      k := k + 1;
      assert k * step == (k - 1) * step + step;
    }
  }

  /** A check leaves count_time a multiple of set_time exactly if it was one. */
  lemma CheckKeepsMultiple(s: State, clock: Clock)
    requires Allowed(s, CheckAt(clock))
    ensures Multiple(Act(s, CheckAt(clock)).count, s.step) <==> Multiple(s.count, s.step)
  {
    if Fires(s, clock) {
      var c := Act(s, CheckAt(clock)).count;
      var k := CatchUpTurns(Period(s.start, clock), s.count + s.step, s.step);
      assert (k + 1) * s.step == k * s.step + s.step;
      assert c == Turned(s.count, s.step, k + 1) && s.count == Turned(c, s.step, -(k + 1));
      if Multiple(s.count, s.step) {
        ShiftMultiple(s.count, s.step, k + 1);
      } else if Multiple(c, s.step) {
        ShiftMultiple(c, s.step, -(k + 1));
      }
    }
  }

  predicate OnlyChecks(actions: seq<Action>) {
    forall k :: 0 <= k < |actions| ==> actions[k].CheckAt?
  }

  /** Until the next set, count_time is a multiple of set_time exactly if it was one at the set. */
  lemma {:induction false} ChecksKeepMultiple(s: State, checks: seq<Action>)
    requires Possible(s, checks) && OnlyChecks(checks)
    ensures After(s, checks).step == s.step && After(s, checks).start == s.start
    ensures Multiple(After(s, checks).count, s.step) <==> Multiple(s.count, s.step)
    decreases |checks|
  {
    if checks != [] {
      CheckKeepsMultiple(s, checks[0].clock);
      ChecksKeepMultiple(Act(s, checks[0]), checks[1..]);
    }
  }

  lemma {:induction false} AfterAppend(s: State, a: seq<Action>, b: seq<Action>)
    requires Possible(s, a + b)
    ensures Possible(s, a) && Possible(After(s, a), b) && After(s, a + b) == After(After(s, a), b)
    decreases |a|
  {
    if a == [] {
      assert a + b == b;
    } else {
      assert (a + b)[1..] == a[1..] + b;
      AfterAppend(Act(s, a[0]), a[1..], b);
    }
  }

  /**
   In any run with any number of sets: at each check after its last set, count_time is a multiple
   of set_time if and only if the count_time carried over that set is one of the new set_time.
   */
  lemma CountIsMultiple(s: State, before: seq<Action>, time: int, clock: Clock, checks: seq<Action>)
    requires Possible(s, before + [SetTo(time, clock)] + checks) && OnlyChecks(checks)
    ensures Possible(s, before)
    ensures Multiple(After(s, before + [SetTo(time, clock)] + checks).count, time)
            <==> Multiple(After(s, before).count, time)
  {
    var one := [SetTo(time, clock)];
    AfterAppend(s, before + one, checks);
    AfterAppend(s, before, one);
    assert one[1..] == [];
    ChecksKeepMultiple(After(s, before + one), checks);
  }

  lemma Then(s: State, actions: seq<Action>, t: State, a: Action) returns (more: seq<Action>, u: State)
    requires Possible(s, actions) && After(s, actions) == t && Allowed(t, a)
    ensures more == actions + [a] && u == Act(t, a) && Possible(s, more) && After(s, more) == u
  {
    more, u := actions + [a], Act(t, a);
    PossibleAppend(s, actions, a);
    AfterAppend(s, actions, [a]);
    assert [a][1..] == [];
  }

  lemma {:induction false} PossibleAppend(s: State, actions: seq<Action>, a: Action)
    requires Possible(s, actions) && Allowed(After(s, actions), a)
    ensures Possible(s, actions + [a])
    decreases |actions|
  {
    if actions == [] {
      assert actions + [a] == [a] && [a][1..] == [];
    } else {
      assert (actions + [a])[1..] == actions[1..] + [a];
      PossibleAppend(Act(s, actions[0]), actions[1..], a);
    }
  }

  /** set first, a firing at once, set second, a firing at period first. */
  lemma TwoSets(start: Clock, later: Clock, first: int, second: int) returns (actions: seq<Action>)
    requires first > 0 && second > 0 && Period(start, start) == 0 && Period(start, later) == first
    ensures var s := State(0, 0, start, 0);
            Possible(s, actions) && After(s, actions) == State(second, first + second, start, 2)
  {
    var s, t := State(0, 0, start, 0), State(0, 0, start, 0);
    actions, t := Then(s, [], t, SetTo(first, start));
    actions, t := Then(s, actions, t, CheckAt(start));
    actions, t := Then(s, actions, t, SetTo(second, start));
    actions, t := Then(s, actions, t, CheckAt(later));
  }

  /** With 100 and 70, count_time is 170: no multiple of the set_time in force. */
  lemma SecondSetBreaksMultiple(start: Clock, first: int, second: int) returns (actions: seq<Action>)
    requires Proper(start) && first == 100 && second == 70 && start.usec < 900_000
    ensures var s := State(0, 0, start, 0);
            Possible(s, actions) && After(s, actions).step == second && !Multiple(After(s, actions).count, second)
  {
    actions := TwoSets(start, Clock(start.sec, start.usec + 100_000), first, second);
    NotMultiple();
  }

  lemma NotMultiple()
    ensures !Multiple(170, 70)
  {
  }

  /** Checks at proper times that never step back, the first not before `from`. */
  predicate InOrder(from: Clock, checks: seq<Action>) {
    OnlyChecks(checks)
    && forall k :: 0 <= k < |checks| ==>
         Proper(checks[k].clock)
         && Micros(if k == 0 then from else checks[k - 1].clock) <= Micros(checks[k].clock)
  }

  lemma InOrderRest(from: Clock, checks: seq<Action>)
    requires checks != [] && InOrder(from, checks)
    ensures InOrder(checks[0].clock, checks[1..])
  {
  }

  /** The n-th firing after a set cannot come before (n - 1) set_times beyond the count it carried over. */
  lemma {:induction false} NotTooOften(s: State, from: Clock, checks: seq<Action>)
    requires s.step > 0 && Proper(s.start) && Possible(s, checks) && InOrder(from, checks)
    ensures var n := After(s, checks).fired - s.fired;
            0 <= n <= |checks|
            && (n > 0 ==> s.count + (n - 1) * s.step <= Period(s.start, checks[|checks| - 1].clock))
    decreases |checks|
  {
    if checks != [] {
      var t, rest := Act(s, checks[0]), checks[1..];
      InOrderRest(from, checks);
      NotTooOften(t, checks[0].clock, rest);
      var n, p, last := After(t, rest).fired - t.fired, Period(s.start, checks[0].clock), checks[|checks| - 1].clock;
      LastIsLatest(from, checks);
      PeriodIsMonotone(s.start, checks[0].clock, last);
      assert rest != [] ==> rest[|rest| - 1].clock == last;
      if Fires(s, checks[0].clock) {
        OneFiringMore(s.count, t.count, s.step, n, p, Period(s.start, last));
      }
    }
  }

  lemma OneFiringMore(count: int, next: int, step: int, n: nat, p: int, last: int)
    requires count <= p <= last && count + step <= next && (n > 0 ==> next + (n - 1) * step <= last)
    ensures count + n * step <= last
  {
    assert n * step == (n - 1) * step + step;
  }

  lemma {:induction false} LastIsLatest(from: Clock, checks: seq<Action>)
    requires checks != [] && InOrder(from, checks)
    ensures Micros(checks[0].clock) <= Micros(checks[|checks| - 1].clock) && Proper(checks[|checks| - 1].clock)
    decreases |checks|
  {
    if |checks| > 1 {
      InOrderRest(from, checks);
      LastIsLatest(checks[0].clock, checks[1..]);
    }
  }

  /** Checked so often that no period is more than set_time beyond the one before. */
  predicate Attended(s: State, checks: seq<Action>, last: int)
    decreases |checks|
  {
    checks == []
    || (checks[0].CheckAt? && last <= Period(s.start, checks[0].clock) <= last + s.step
        && Attended(s, checks[1..], Period(s.start, checks[0].clock)))
  }

  /** Then it never has to catch up: count_time grows by one set_time for each firing, and is never overdue. */
  lemma {:induction false} OncePerInterval(s: State, checks: seq<Action>, last: int)
    requires s.step > 0 && last < s.count && Possible(s, checks) && Attended(s, checks, last)
    ensures After(s, checks).count == s.count + (After(s, checks).fired - s.fired) * s.step
    ensures checks != [] ==> Period(s.start, checks[|checks| - 1].clock) < After(s, checks).count
    decreases |checks|
  {
    if checks != [] {
      var t, rest := Act(s, checks[0]), checks[1..];
      AttendedAs(s, t, rest, Period(s.start, checks[0].clock));
      OncePerInterval(t, rest, Period(s.start, checks[0].clock));
      var n := After(t, rest).fired - t.fired;
      assert (n + 1) * s.step == n * s.step + s.step;
      if rest != [] {
        assert rest[|rest| - 1] == checks[|checks| - 1];
      }
    }
  }

  lemma {:induction false} AttendedAs(s: State, t: State, checks: seq<Action>, last: int)
    requires s.step == t.step && s.start == t.start && Attended(s, checks, last)
    ensures Attended(t, checks, last)
    decreases |checks|
  {
    if checks != [] {
      AttendedAs(s, t, checks[1..], Period(s.start, checks[0].clock));
    }
  }
}

/** The time gate of the render loop in basic.cpp: `lastTime` and
    `should_update` decide, once per frame, whether the automaton advances
    one generation. Time is a real number of seconds. */
module Ticker {

  /** The tick interval: a sixteenth of a second. */
  const Interval: real := 0.0625

  /** The value of `lastTime` after n steps from `start`. */
  function Schedule(start: real, n: nat): real
    decreases n
  {
    if n == 0 then start else Schedule(start, n - 1) + Interval
  }

  /** Step n is due exactly n intervals after the start. */
  lemma {:induction false} ScheduleIsLinear(start: real, n: nat)
    ensures Schedule(start, n) == start + n as real * Interval
    decreases n
  {
    if n > 0 {
      ScheduleIsLinear(start, n - 1);
    }
  }

  /** The two variables of the gate. */
  datatype Gate = Gate(lastTime: real, shouldUpdate: bool)

  /** The check at the top of every frame: when at least one interval has
      passed since `lastTime`, `lastTime` moves forward by exactly one
      interval (not up to `now`) and the update flag is raised. */
  function Poll(s: Gate, now: real): (t: Gate)
    ensures t.shouldUpdate <==> s.shouldUpdate || now - s.lastTime >= Interval
    ensures t.lastTime == s.lastTime || t.lastTime == s.lastTime + Interval
    ensures t.lastTime > s.lastTime <==> now - s.lastTime >= Interval
    ensures t.lastTime > s.lastTime ==> t.lastTime <= now
  {
    if now - s.lastTime >= Interval then Gate(s.lastTime + Interval, true) else s
  }

  /** One frame as the loop runs it when the flag is down on entry: poll,
      step when the flag is up, lower it. Returns the new `lastTime` and
      whether a step ran. */
  function Frame(lastTime: real, now: real): (r: (real, bool))
    ensures r.1 <==> now - lastTime >= Interval
    ensures r.0 == if r.1 then lastTime + Interval else lastTime
  {
    var t := Poll(Gate(lastTime, false), now);
    (t.lastTime, t.shouldUpdate)
  }

  /** A run of frames at the clock readings `times`: the final `lastTime`
      and the number of steps taken. */
  function Run(lastTime: real, times: seq<real>): (real, nat)
    decreases |times|
  {
    if times == [] then (lastTime, 0)
    else
      var (l, stepped) := Frame(lastTime, times[0]);
      var (l', n) := Run(l, times[1..]);
      (l', n + if stepped then 1 else 0)
  }

  predicate NonDecreasing(times: seq<real>) {
    forall a, b :: 0 <= a < b < |times| ==> times[a] <= times[b]
  }

  /** Steps are never batched: at most one per frame, and `lastTime` has
      moved by exactly one interval per step taken. */
  lemma {:induction false} RunAccounting(lastTime: real, times: seq<real>)
    ensures Run(lastTime, times).1 <= |times|
    ensures Run(lastTime, times).0 == Schedule(lastTime, Run(lastTime, times).1)
    decreases |times|
  {
    if times != [] {
      var (l, stepped) := Frame(lastTime, times[0]);
      RunAccounting(l, times[1..]);
      ScheduleShift(lastTime, Run(l, times[1..]).1, stepped);
    }
  }

  /** One more step at the front of a schedule is one more at its end. */
  lemma {:induction false} ScheduleShift(start: real, n: nat, stepped: bool)
    ensures Schedule(if stepped then start + Interval else start, n)
      == Schedule(start, n + if stepped then 1 else 0)
    decreases n
  {
    if n > 0 {
      ScheduleShift(start, n - 1, stepped);
    }
  }

  /** With a monotonic clock that started at `lastTime`, the gate never runs
      ahead of the clock. */
  lemma {:induction false} RunNeverAhead(lastTime: real, times: seq<real>)
    requires NonDecreasing(times)
    requires times != [] ==> lastTime <= times[0]
    ensures times != [] ==> Run(lastTime, times).0 <= times[|times| - 1]
    decreases |times|
  {
    if times != [] {
      var (l, stepped) := Frame(lastTime, times[0]);
      assert l <= times[0];
      if |times| > 1 {
        assert times[1..][0] == times[1];
        RunNeverAhead(l, times[1..]);
        assert times[1..][|times[1..]| - 1] == times[|times| - 1];
      }
    }
  }

  /** After a stall, the frame that fires fires again at the same clock
      reading exactly when two or more intervals had passed: the deficit
      is worked off one step per frame. */
  lemma Refire(lastTime: real, now: real)
    requires now - lastTime >= Interval
    ensures Frame(Frame(lastTime, now).0, now).1 <==> now - lastTime >= 2.0 * Interval
  {
  }

  /** The gate from a start at 0: no step at 1/32 s, a step at 1/16 s that
      moves `lastTime` to 1/16, none at 3/32 s. */
  lemma GateExample()
    ensures Frame(0.0, 0.03125) == (0.0, false)
    ensures Frame(0.0, 0.0625) == (0.0625, true)
    ensures Frame(0.0625, 0.09375) == (0.0625, false)
  {
  }
}

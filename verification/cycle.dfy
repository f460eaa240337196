/**
 * Whole notification cycles of one trigger. Triggers never interact (see
 * `Scheduler.TickIsPointwise`), so a run of one trigger through ticks and
 * resets is what the registry does to that trigger.
 */
module Cycle {
  import opened Results
  import opened Triggers
  import opened Describe
  import opened Scheduler

  /** The period of both scans, in milliseconds (index.js:5). */
  const ProcessingInterval: int := 10

  /** What happens to one trigger: a tick, or a correctly keyed reset, at `now`. */
  datatype Event = TickAt(now: int) | ResetAt(now: int)

  /** A trigger after a run of events, and the notices sent along the way in order. */
  datatype Run = Run(trigger: Trigger, sent: seq<Notice>)

  function Apply(t: Trigger, e: Event): Run {
    match e
    case TickAt(n) => var s := Step(t, n); Run(s.trigger, ToSeq(s.notice))
    case ResetAt(n) => Run(t.(lastTriggerEpoch := n), [])
  }

  function RunEvents(t: Trigger, evs: seq<Event>): Run
    decreases |evs|
  {
    if |evs| == 0 then Run(t, [])
    else
      var first := Apply(t, evs[0]);
      var rest := RunEvents(first.trigger, evs[1..]);
      Run(rest.trigger, first.sent + rest.sent)
  }

  /** `count` ticks, the first at `start`, then one every `period` milliseconds. */
  function Ticks(start: int, period: int, count: nat): (evs: seq<Event>)
    ensures |evs| == count
    decreases count
  {
    if count == 0 then [] else [TickAt(start)] + Ticks(start + period, period, count - 1)
  }

  /** The time of the tick `n` periods after the one at `start`. */
  function Later(start: int, period: int, n: nat): int
    decreases n
  {
    if n == 0 then start else Later(start + period, period, n - 1)
  }

  lemma {:induction false} LaterAtLeast(start: int, period: int, n: nat)
    requires period >= 0
    ensures Later(start, period, n) >= start
    decreases n
  {
    if n > 0 {
      LaterAtLeast(start + period, period, n - 1);
    }
  }

  lemma {:induction false} LaterStep(start: int, period: int, n: nat)
    ensures Later(start, period, n) + period == Later(start + period, period, n)
    decreases n
  {
    if n > 0 {
      LaterStep(start + period, period, n - 1);
    }
  }

  lemma LaterNext(start: int, period: int, n: nat)
    ensures Later(start, period, n + 1) == Later(start, period, n) + period
  {
    LaterStep(start, period, n);
  }

  lemma {:induction false} LaterAdd(start: int, period: int, a: nat, b: nat)
    ensures Later(Later(start, period, a), period, b) == Later(start, period, a + b)
    decreases a
  {
    if a > 0 {
      LaterAdd(start + period, period, a - 1, b);
    }
  }

  /** The run of `count` periodic ticks, the first at `start`, taken one step at a time. */
  function RunTicks(t: Trigger, start: int, period: int, count: nat): Run
    decreases count
  {
    if count == 0 then Run(t, [])
    else
      var s := Step(t, start);
      var rest := RunTicks(s.trigger, start + period, period, count - 1);
      Run(rest.trigger, ToSeq(s.notice) + rest.sent)
  }

  /** Stepping through periodic ticks is running the tick events. */
  lemma {:induction false} RunTicksIsRunEvents(t: Trigger, start: int, period: int, count: nat)
    ensures RunTicks(t, start, period, count) == RunEvents(t, Ticks(start, period, count))
    decreases count
  {
    if count > 0 {
      var evs := Ticks(start, period, count);
      assert evs[0] == TickAt(start);
      assert evs[1..] == Ticks(start + period, period, count - 1);
      RunTicksIsRunEvents(Step(t, start).trigger, start + period, period, count - 1);
    }
  }

  lemma Assoc<T>(a: seq<T>, b: seq<T>, c: seq<T>)
    ensures a + (b + c) == (a + b) + c
  {
  }

  /** Two stretches of periodic ticks, one after the other. */
  lemma {:induction false} RunTicksConcat(t: Trigger, start: int, period: int, a: nat, b: nat, ra: Run, rb: Run)
    requires RunTicks(t, start, period, a) == ra
    requires RunTicks(ra.trigger, Later(start, period, a), period, b) == rb
    ensures RunTicks(t, start, period, a + b) == Run(rb.trigger, ra.sent + rb.sent)
    decreases a
  {
    if a == 0 {
      assert ra.sent == [];
    } else {
      var s := Step(t, start);
      var ra' := RunTicks(s.trigger, start + period, period, a - 1);
      RunTicksConcat(s.trigger, start + period, period, a - 1, b, ra', rb);
      Assoc(ToSeq(s.notice), ra'.sent, rb.sent);
    }
  }

  predicate NoResets(evs: seq<Event>) {
    forall i :: 0 <= i < |evs| ==> evs[i].TickAt?
  }

  predicate Nondecreasing(evs: seq<Event>) {
    forall i, j :: 0 <= i < j < |evs| ==> evs[i].now <= evs[j].now
  }

  /** Notifications a trigger may still send before a reset: the counter, or a full budget. */
  function Budget(t: Trigger): int {
    match t.attemptsRemaining
    case None => t.notificationAttempts
    case Some(k) => k
  }

  /**
   * Without a reset, and with time not running backwards, a trigger sends
   * at most its remaining budget, whatever the tick times: a DOWN trigger
   * never opens a second cycle. A DOWN trigger must be past its delay at
   * the first event, as it is when the watcher put it down.
   */
  lemma {:induction false} AtMostBudget(t: Trigger, evs: seq<Event>)
    requires CounterOk(t) && t.notificationAttempts >= 0
    requires NoResets(evs) && Nondecreasing(evs)
    requires t.attemptsRemaining.Some? && |evs| > 0 ==> evs[0].now - t.lastTriggerEpoch > t.delay
    ensures |RunEvents(t, evs).sent| <= Budget(t)
    decreases |evs|
  {
    if |evs| > 0 {
      var n := evs[0].now;
      var first := Apply(t, evs[0]);
      var rest := evs[1..];
      assert first.trigger == Step(t, n).trigger;
      assert |first.sent| + Budget(first.trigger) <= Budget(t);
      assert NoResets(rest) && Nondecreasing(rest) by {
        forall i | 0 <= i < |rest|
          ensures rest[i] == evs[i + 1]
        {
        }
      }
      if first.trigger.attemptsRemaining.Some? && |rest| > 0 {
        assert rest[0].now >= n;
      }
      AtMostBudget(first.trigger, rest);
    }
  }

  /**
   * An exhausted cycle is silent and frozen: with no reset and the
   * trigger still past its delay, ticks send nothing and change nothing.
   */
  lemma {:induction false} ExhaustedIsSilent(t: Trigger, evs: seq<Event>)
    requires t.attemptsRemaining == Some(0)
    requires forall i :: 0 <= i < |evs| ==> evs[i].TickAt? && evs[i].now - t.lastTriggerEpoch > t.delay
    ensures RunEvents(t, evs) == Run(t, [])
    decreases |evs|
  {
    if |evs| > 0 {
      assert Step(t, evs[0].now) == Notified(t, None);
      forall i | 0 <= i < |evs| - 1
        ensures evs[1..][i] == evs[i + 1]
      {
      }
      ExhaustedIsSilent(t, evs[1..]);
    }
  }

  /** Every tick falls within `delay` of the latest reset. */
  predicate KeptAlive(lastReset: int, delay: int, evs: seq<Event>)
    decreases |evs|
  {
    |evs| == 0 ||
    match evs[0]
    case TickAt(n) => n - lastReset <= delay && KeptAlive(lastReset, delay, evs[1..])
    case ResetAt(n) => KeptAlive(n, delay, evs[1..])
  }

  /**
   * A trigger reset more often than its delay never notifies, whatever
   * state it starts in (a cycle in progress is cancelled by the first
   * tick), and after a tick it is UP.
   */
  lemma {:induction false} KeptAliveNeverNotifies(t: Trigger, evs: seq<Event>)
    requires KeptAlive(t.lastTriggerEpoch, t.delay, evs)
    ensures RunEvents(t, evs).sent == []
    ensures |evs| > 0 && evs[|evs| - 1].TickAt? ==> RunEvents(t, evs).trigger.attemptsRemaining.None?
    decreases |evs|
  {
    if |evs| > 0 {
      var first := Apply(t, evs[0]);
      assert first.sent == [];
      assert first.trigger.lastTriggerEpoch ==
               match evs[0] case TickAt(_) => t.lastTriggerEpoch case ResetAt(n) => n;
      assert first.trigger.delay == t.delay;
      KeptAliveNeverNotifies(first.trigger, evs[1..]);
      if |evs| == 1 && evs[0].TickAt? {
        assert first.trigger.attemptsRemaining.None?;
      } else if |evs| > 1 {
        assert evs[1..][|evs[1..]| - 1] == evs[|evs| - 1];
      }
    }
  }

  /** The notices a cycle with budget `attempts` sends while `left` attempts remain. */
  function Expected(attempts: int, left: nat): seq<Notice>
    decreases left
  {
    if left == 0 then [] else [Notice(attempts - left + 1, left == 1)] + Expected(attempts, left - 1)
  }

  lemma ExpectedFirst(attempts: nat)
    requires attempts >= 1
    ensures Expected(attempts, attempts) == [Notice(1, attempts == 1)] + Expected(attempts, attempts - 1)
  {
  }

  /**
   * The notices of a whole cycle are the 1st, 2nd, ... up to the budget,
   * and only the last is final.
   */
  lemma {:induction false} ExpectedShape(attempts: int, left: nat)
    ensures |Expected(attempts, left)| == left
    ensures forall i :: 0 <= i < left ==>
              Expected(attempts, left)[i] == Notice(attempts - left + 1 + i, i == left - 1)
    decreases left
  {
    if left > 0 {
      ExpectedShape(attempts, left - 1);
      var e := Expected(attempts, left);
      forall i | 0 < i < left
        ensures e[i] == Notice(attempts - left + 1 + i, i == left - 1)
      {
        assert e[i] == Expected(attempts, left - 1)[i - 1];
      }
    }
  }

  /**
   * A fresh trigger stays quiet while its ticks fall within its delay; the
   * first tick past it puts the trigger down and sends the 1st notice.
   */
  lemma {:induction false} WaitThenGoDown(t: Trigger, start: int, period: int, u: nat)
    requires t.attemptsRemaining.None? && t.lastNotificationEpoch.None?
    requires t.notificationAttempts >= 1 && period >= 0
    requires u > 0 ==> Later(start, period, u - 1) <= t.lastTriggerEpoch + t.delay
    requires Later(start, period, u) > t.lastTriggerEpoch + t.delay
    ensures RunTicks(t, start, period, u + 1) ==
              Run(t.(attemptsRemaining := Some(t.notificationAttempts - 1),
                     lastNotificationEpoch := Some(Later(start, period, u))),
                  [Notice(1, t.notificationAttempts == 1)])
    decreases u
  {
    if u == 0 {
      assert RunTicks(t, start + period, period, 0).sent == [];
    } else {
      LaterAtLeast(start, period, u - 1);
      assert Step(t, start) == Notified(t, None);
      WaitThenGoDown(t, start + period, period, u - 1);
    }
  }

  /**
   * A DOWN trigger with attempts left stays quiet while its ticks fall
   * within the interval of its last send; the first tick past it sends.
   */
  lemma {:induction false} WaitThenSend(t: Trigger, k: nat, e: int, start: int, period: int, q: nat)
    requires t.attemptsRemaining == Some(k) && k > 0
    requires t.lastNotificationEpoch == Some(e) && period >= 0
    requires start - t.lastTriggerEpoch > t.delay
    requires q > 0 ==> Later(start, period, q - 1) <= e + t.notificationInterval
    requires Later(start, period, q) > e + t.notificationInterval
    ensures RunTicks(t, start, period, q + 1) ==
              Run(t.(attemptsRemaining := Some(k - 1), lastNotificationEpoch := Some(Later(start, period, q))),
                  [Notice(t.notificationAttempts - k + 1, k == 1)])
    decreases q
  {
    LaterAtLeast(start, period, q);
    if q == 0 {
      assert RunTicks(t, start + period, period, 0).sent == [];
    } else {
      LaterAtLeast(start, period, q - 1);
      assert Step(t, start) == Notified(t, None);
      WaitThenSend(t, k, e, start + period, period, q - 1);
    }
  }

  /** Ticks of an exhausted trigger past its delay change nothing. */
  lemma {:induction false} QuietWhenExhausted(t: Trigger, start: int, period: int, count: nat)
    requires t.attemptsRemaining == Some(0) && period >= 0
    requires start - t.lastTriggerEpoch > t.delay
    ensures RunTicks(t, start, period, count) == Run(t, [])
    decreases count
  {
    if count > 0 {
      assert Step(t, start) == Notified(t, None);
      QuietWhenExhausted(t, start + period, period, count - 1);
    }
  }

  /** How many ticks, the first at `start` and one every `period`, come no later than `limit`. */
  function TicksUntilAfter(start: int, limit: int, period: int): nat
    requires period >= 1
    decreases limit - start
  {
    if start > limit then 0 else 1 + TicksUntilAfter(start + period, limit, period)
  }

  lemma {:induction false} TicksUntilAfterBounds(start: int, limit: int, period: int)
    requires period >= 1
    ensures Later(start, period, TicksUntilAfter(start, limit, period)) > limit
    ensures TicksUntilAfter(start, limit, period) > 0 ==>
              Later(start, period, TicksUntilAfter(start, limit, period) - 1) <= limit
    decreases limit - start
  {
    if start <= limit {
      TicksUntilAfterBounds(start + period, limit, period);
    }
  }

  lemma {:induction false} TicksUntilAfterShift(start: int, limit: int, period: int, c: int)
    requires period >= 1
    ensures TicksUntilAfter(start + c, limit + c, period) == TicksUntilAfter(start, limit, period)
    decreases limit - start
  {
    if start <= limit {
      TicksUntilAfterShift(start + period, limit, period, c);
    }
  }

  /** Ticks a DOWN trigger spends from one send to the next: the quiet ones, then the one that fires. */
  function TicksPerSend(interval: int, period: int): nat
    requires period >= 1
  {
    TicksUntilAfter(period, interval, period) + 1
  }

  lemma MulStep(k: int, g: int)
    ensures k * g == (k - 1) * g + g
  {
  }

  /** A DOWN trigger that has sent and has `k` attempts left. */
  predicate SentWhileDown(t: Trigger, k: nat, period: int) {
    && t.attemptsRemaining == Some(k)
    && t.lastNotificationEpoch.Some?
    && t.lastNotificationEpoch.value - t.lastTriggerEpoch > t.delay
    && t.notificationInterval >= 0 && period >= 1
  }

  /**
   * A DOWN trigger that last sent at `e` with `k > 0` attempts left: of the
   * next `TicksPerSend` ticks, all but the last are quiet and the last sends.
   */
  lemma NextSend(t: Trigger, e: int, k: nat, period: int, g: nat)
    requires SentWhileDown(t, k, period) && k > 0
    requires t.lastNotificationEpoch == Some(e)
    requires g == TicksPerSend(t.notificationInterval, period)
    ensures RunTicks(t, e + period, period, g) ==
              Run(t.(attemptsRemaining := Some(k - 1), lastNotificationEpoch := Some(Later(e, period, g))),
                  [Notice(t.notificationAttempts - k + 1, k == 1)])
  {
    var interval := t.notificationInterval;
    var q := g - 1;
    TicksUntilAfterShift(period, interval, period, e);
    TicksUntilAfterBounds(e + period, e + interval, period);
    assert Later(e + period, period, q) == Later(e, period, g);
    WaitThenSend(t, k, e, e + period, period, q);
  }

  /** A run whose first `a` ticks send one notice: that notice, then what the next `b` ticks send. */
  lemma OneThenRest(t: Trigger, start: int, period: int, a: nat, b: nat, count: nat,
                    mid: int, t1: Trigger, n1: Notice, rest: Run)
    requires a + b == count && Later(start, period, a) == mid
    requires RunTicks(t, start, period, a) == Run(t1, [n1])
    requires RunTicks(t1, mid, period, b) == rest
    ensures RunTicks(t, start, period, count) == Run(rest.trigger, [n1] + rest.sent)
  {
    RunTicksConcat(t, start, period, a, b, Run(t1, [n1]), rest);
  }

  /** A run whose ticks after the first `a` change nothing is the run of those `a`. */
  lemma ThenQuiet(t: Trigger, start: int, period: int, a: nat, count: nat, mid: int, ra: Run)
    requires a <= count && Later(start, period, a) == mid
    requires RunTicks(t, start, period, a) == ra
    requires RunTicks(ra.trigger, mid, period, count - a) == Run(ra.trigger, [])
    ensures RunTicks(t, start, period, count) == ra
  {
    RunTicksConcat(t, start, period, a, count - a, ra, Run(ra.trigger, []));
    assert ra.sent + [] == ra.sent;
  }

  /**
   * The rest of a cycle on periodic ticks: a DOWN trigger that last sent
   * at `e` with `k` attempts left sends exactly the remaining notices, one
   * every `TicksPerSend` ticks, and ends exhausted.
   */
  lemma {:induction false} Burst(t: Trigger, e: int, k: nat, period: int, g: nat)
    requires SentWhileDown(t, k, period)
    requires t.lastNotificationEpoch == Some(e)
    requires g == TicksPerSend(t.notificationInterval, period)
    ensures RunTicks(t, e + period, period, k * g) ==
              Run(t.(attemptsRemaining := Some(0), lastNotificationEpoch := Some(Later(e, period, k * g))),
                  Expected(t.notificationAttempts, k))
    decreases k
  {
    if k > 0 {
      var f := Later(e, period, g);
      var t1 := t.(attemptsRemaining := Some(k - 1), lastNotificationEpoch := Some(f));
      LaterAtLeast(e, period, g);
      Burst(t1, f, k - 1, period, g);
      MulStep(k, g);
      BurstStep(t, e, k, period, g, f, t1, (k - 1) * g, k * g);
    }
  }

  /**
   * One send, then the burst of the remaining `k - 1` from the state it
   * leaves: `rest` ticks after the first `g`, `whole` in all.
   */
  lemma BurstStep(t: Trigger, e: int, k: nat, period: int, g: nat, f: int, t1: Trigger, rest: nat, whole: nat)
    requires SentWhileDown(t, k, period) && k > 0
    requires t.lastNotificationEpoch == Some(e)
    requires g == TicksPerSend(t.notificationInterval, period)
    requires f == Later(e, period, g) && whole == g + rest
    requires t1 == t.(attemptsRemaining := Some(k - 1), lastNotificationEpoch := Some(f))
    requires RunTicks(t1, f + period, period, rest) ==
               Run(t1.(attemptsRemaining := Some(0), lastNotificationEpoch := Some(Later(f, period, rest))),
                   Expected(t.notificationAttempts, k - 1))
    ensures RunTicks(t, e + period, period, whole) ==
              Run(t.(attemptsRemaining := Some(0), lastNotificationEpoch := Some(Later(e, period, whole))),
                  Expected(t.notificationAttempts, k))
  {
    var A := t.notificationAttempts;
    var notice := Notice(A - k + 1, k == 1);
    NextSend(t, e, k, period, g);
    var last := t1.(attemptsRemaining := Some(0), lastNotificationEpoch := Some(Later(f, period, rest)));
    LaterStep(e, period, g);
    OneThenRest(t, e + period, period, g, rest, whole, f + period, t1, notice, Run(last, Expected(A, k - 1)));
    LaterAdd(e, period, g, rest);
  }

  /** The ticks a fresh trigger spends UP before the first tick past its delay. */
  function TicksUp(t: Trigger, start: int, period: int): nat
    requires period >= 1
  {
    TicksUntilAfter(start, t.lastTriggerEpoch + t.delay, period)
  }

  /** How many ticks a whole cycle of a fresh trigger takes. */
  function CycleTicks(t: Trigger, start: int, period: int): nat
    requires period >= 1 && t.notificationAttempts >= 1 && t.notificationInterval >= 0
  {
    TicksUp(t, start, period) + 1 +
      (t.notificationAttempts - 1) * TicksPerSend(t.notificationInterval, period)
  }

  /** The rest of the burst, then silence for as long as the ticks go on. */
  lemma BurstThenSilent(t: Trigger, e: int, k: nat, period: int, g: nat, count: nat)
    requires SentWhileDown(t, k, period)
    requires t.lastNotificationEpoch == Some(e)
    requires g == TicksPerSend(t.notificationInterval, period)
    requires count >= k * g
    ensures RunTicks(t, e + period, period, count) ==
              Run(t.(attemptsRemaining := Some(0), lastNotificationEpoch := Some(Later(e, period, k * g))),
                  Expected(t.notificationAttempts, k))
  {
    var burst: nat := k * g;
    var after := Later(e + period, period, burst);
    var t2 := t.(attemptsRemaining := Some(0), lastNotificationEpoch := Some(Later(e, period, burst)));
    Burst(t, e, k, period, g);
    LaterAtLeast(e + period, period, burst);
    QuietWhenExhausted(t2, after, period, count - burst);
    ThenQuiet(t, e + period, period, burst, count, after, Run(t2, Expected(t.notificationAttempts, k)));
  }

  /**
   * A whole cycle, stepped tick by tick, for a trigger whose first tick
   * past its delay is its `u`-th, at `d`.
   */
  lemma CycleAfterWait(t: Trigger, start: int, period: int, u: nat, d: int, count: nat)
    requires t.attemptsRemaining.None? && t.lastNotificationEpoch.None?
    requires t.notificationAttempts >= 1 && t.notificationInterval >= 0 && period >= 1
    requires u > 0 ==> Later(start, period, u - 1) <= t.lastTriggerEpoch + t.delay
    requires Later(start, period, u) == d && d > t.lastTriggerEpoch + t.delay
    requires count >= u + 1 + (t.notificationAttempts - 1) * TicksPerSend(t.notificationInterval, period)
    ensures RunTicks(t, start, period, count).sent == Expected(t.notificationAttempts, t.notificationAttempts)
    ensures RunTicks(t, start, period, count).trigger.attemptsRemaining == Some(0)
  {
    var A := t.notificationAttempts;
    var t1 := t.(attemptsRemaining := Some(A - 1), lastNotificationEpoch := Some(d));
    var n1 := Notice(1, A == 1);
    var g := TicksPerSend(t.notificationInterval, period);
    var rest: nat := count - (u + 1);
    WaitThenGoDown(t, start, period, u);
    LaterNext(start, period, u);
    BurstThenSilent(t1, d, A - 1, period, g, rest);
    var tail := RunTicks(t1, d + period, period, rest);
    OneThenRest(t, start, period, u + 1, rest, count, d + period, t1, n1, tail);
    ExpectedFirst(A);
  }

  /** A whole cycle, stepped tick by tick. */
  lemma WholeCycleTicks(t: Trigger, start: int, period: int, count: nat)
    requires t.attemptsRemaining.None? && t.lastNotificationEpoch.None?
    requires t.notificationAttempts >= 1 && t.notificationInterval >= 0 && period >= 1
    requires count >= CycleTicks(t, start, period)
    ensures RunTicks(t, start, period, count).sent == Expected(t.notificationAttempts, t.notificationAttempts)
    ensures RunTicks(t, start, period, count).trigger.attemptsRemaining == Some(0)
  {
    TicksUntilAfterBounds(start, t.lastTriggerEpoch + t.delay, period);
    var u := TicksUp(t, start, period);
    CycleAfterWait(t, start, period, u, Later(start, period, u), count);
  }

  /**
   * A whole cycle: a trigger that starts UP with no earlier send and is
   * never reset, ticked every `period` milliseconds, sends exactly its
   * budget of notifications, the 1st first and the final one last, then
   * stays silent however long the ticks go on.
   */
  lemma WholeCycle(t: Trigger, start: int, period: int, count: nat)
    requires t.attemptsRemaining.None? && t.lastNotificationEpoch.None?
    requires t.notificationAttempts >= 1 && t.notificationInterval >= 0 && period >= 1
    requires count >= CycleTicks(t, start, period)
    ensures var r := RunEvents(t, Ticks(start, period, count));
            && |r.sent| == t.notificationAttempts
            && (forall i :: 0 <= i < |r.sent| ==> r.sent[i] == Notice(i + 1, i == |r.sent| - 1))
            && r.trigger.attemptsRemaining == Some(0)
  {
    WholeCycleTicks(t, start, period, count);
    RunTicksIsRunEvents(t, start, period, count);
    ExpectedShape(t.notificationAttempts, t.notificationAttempts);
  }

  /** An UP trigger stays UP and silent on ticks within its delay. */
  lemma {:induction false} QuietWhileUp(t: Trigger, start: int, period: int, u: nat)
    requires t.attemptsRemaining.None? && period >= 0
    requires u > 0 ==> Later(start, period, u - 1) <= t.lastTriggerEpoch + t.delay
    ensures RunTicks(t, start, period, u) == Run(t, [])
    decreases u
  {
    if u > 0 {
      LaterAtLeast(start, period, u - 1);
      assert Step(t, start) == Notified(t, None);
      QuietWhileUp(t, start + period, period, u - 1);
    }
  }

  /**
   * On a tick past its delay an UP trigger goes DOWN with its full budget,
   * so from that tick on it runs as if it had been put DOWN already.
   */
  lemma GoesDownAlike(t: Trigger, d: int, period: int, n: nat)
    requires t.attemptsRemaining.None? && d - t.lastTriggerEpoch > t.delay
    ensures RunTicks(t, d, period, n + 1) ==
              RunTicks(t.(attemptsRemaining := Some(t.notificationAttempts)), d, period, n + 1)
  {
    assert Step(t, d) == Step(t.(attemptsRemaining := Some(t.notificationAttempts)), d);
  }

  /**
   * A trigger UP again after an earlier send, on its first tick past its
   * delay at `d`, goes DOWN and sends its 1st notice on the `q`-th tick from
   * there, at `s`, the first past the interval of that earlier send.
   */
  lemma ReopenedFirstSend(t: Trigger, d: int, period: int, q: nat, s: int)
    requires t.attemptsRemaining.None? && t.lastNotificationEpoch.Some?
    requires t.notificationAttempts >= 1 && period >= 0
    requires d - t.lastTriggerEpoch > t.delay
    requires q > 0 ==> Later(d, period, q - 1) <= t.lastNotificationEpoch.value + t.notificationInterval
    requires Later(d, period, q) == s && s > t.lastNotificationEpoch.value + t.notificationInterval
    ensures RunTicks(t, d, period, q + 1) ==
              Run(t.(attemptsRemaining := Some(t.notificationAttempts - 1), lastNotificationEpoch := Some(s)),
                  [Notice(1, t.notificationAttempts == 1)])
  {
    var A := t.notificationAttempts;
    var t0 := t.(attemptsRemaining := Some(A));
    WaitThenSend(t0, A, t.lastNotificationEpoch.value, d, period, q);
    GoesDownAlike(t, d, period, q);
  }

  /** A later cycle from the tick that puts the trigger DOWN, at `d`. */
  lemma ReopenedFromDown(t: Trigger, d: int, period: int, q: nat, s: int, count: nat)
    requires t.attemptsRemaining.None? && t.lastNotificationEpoch.Some?
    requires t.notificationAttempts >= 1 && t.notificationInterval >= 0 && period >= 1
    requires d - t.lastTriggerEpoch > t.delay
    requires q > 0 ==> Later(d, period, q - 1) <= t.lastNotificationEpoch.value + t.notificationInterval
    requires Later(d, period, q) == s && s > t.lastNotificationEpoch.value + t.notificationInterval
    requires count >= q + 1 + (t.notificationAttempts - 1) * TicksPerSend(t.notificationInterval, period)
    ensures RunTicks(t, d, period, count).sent == Expected(t.notificationAttempts, t.notificationAttempts)
    ensures RunTicks(t, d, period, count).trigger.attemptsRemaining == Some(0)
  {
    var A := t.notificationAttempts;
    var t2 := t.(attemptsRemaining := Some(A - 1), lastNotificationEpoch := Some(s));
    var n1 := Notice(1, A == 1);
    var g := TicksPerSend(t.notificationInterval, period);
    var rest: nat := count - (q + 1);
    ReopenedFirstSend(t, d, period, q, s);
    LaterNext(d, period, q);
    LaterAtLeast(d, period, q);
    BurstThenSilent(t2, s, A - 1, period, g, rest);
    var tail := RunTicks(t2, s + period, period, rest);
    OneThenRest(t, d, period, q + 1, rest, count, s + period, t2, n1, tail);
    ExpectedFirst(A);
  }

  /**
   * A later cycle, stepped tick by tick: quiet while UP, then DOWN on the
   * `u`-th tick, at `d`, and the whole budget from there.
   */
  lemma ReopenedCycleAfterWait(t: Trigger, start: int, period: int, u: nat, d: int, q: nat, s: int, count: nat)
    requires t.attemptsRemaining.None? && t.lastNotificationEpoch.Some?
    requires t.notificationAttempts >= 1 && t.notificationInterval >= 0 && period >= 1
    requires u > 0 ==> Later(start, period, u - 1) <= t.lastTriggerEpoch + t.delay
    requires Later(start, period, u) == d && d > t.lastTriggerEpoch + t.delay
    requires q > 0 ==> Later(d, period, q - 1) <= t.lastNotificationEpoch.value + t.notificationInterval
    requires Later(d, period, q) == s && s > t.lastNotificationEpoch.value + t.notificationInterval
    requires count >= u + q + 1 + (t.notificationAttempts - 1) * TicksPerSend(t.notificationInterval, period)
    ensures RunTicks(t, start, period, count).sent == Expected(t.notificationAttempts, t.notificationAttempts)
    ensures RunTicks(t, start, period, count).trigger.attemptsRemaining == Some(0)
  {
    QuietWhileUp(t, start, period, u);
    ReopenedFromDown(t, d, period, q, s, count - u);
    var down := RunTicks(t, d, period, count - u);
    RunTicksConcat(t, start, period, u, count - u, Run(t, []), down);
    assert [] + down.sent == down.sent;
  }

  /** How many ticks a later cycle takes, for a trigger UP again after an earlier send. */
  function ReopenTicks(t: Trigger, start: int, period: int): nat
    requires t.lastNotificationEpoch.Some?
    requires period >= 1 && t.notificationAttempts >= 1 && t.notificationInterval >= 0
  {
    var u := TicksUp(t, start, period);
    var d := Later(start, period, u);
    u + TicksUntilAfter(d, t.lastNotificationEpoch.value + t.notificationInterval, period) + 1 +
      (t.notificationAttempts - 1) * TicksPerSend(t.notificationInterval, period)
  }

  /**
   * Every later cycle is whole too: a trigger UP again after an earlier
   * cycle, and never reset, sends exactly its budget of notifications, the
   * 1st first and the final one last, then stays silent. Only the first of
   * them may wait for the interval of the earlier cycle's last send.
   */
  lemma ReopenedCycle(t: Trigger, start: int, period: int, count: nat)
    requires t.attemptsRemaining.None? && t.lastNotificationEpoch.Some?
    requires t.notificationAttempts >= 1 && t.notificationInterval >= 0 && period >= 1
    requires count >= ReopenTicks(t, start, period)
    ensures var r := RunEvents(t, Ticks(start, period, count));
            && |r.sent| == t.notificationAttempts
            && (forall i :: 0 <= i < |r.sent| ==> r.sent[i] == Notice(i + 1, i == |r.sent| - 1))
            && r.trigger.attemptsRemaining == Some(0)
  {
    var limit := t.lastNotificationEpoch.value + t.notificationInterval;
    TicksUntilAfterBounds(start, t.lastTriggerEpoch + t.delay, period);
    var u := TicksUp(t, start, period);
    var d := Later(start, period, u);
    TicksUntilAfterBounds(d, limit, period);
    var q := TicksUntilAfter(d, limit, period);
    ReopenedCycleAfterWait(t, start, period, u, d, q, Later(d, period, q), count);
    RunTicksIsRunEvents(t, start, period, count);
    ExpectedShape(t.notificationAttempts, t.notificationAttempts);
  }

  /**
   * The UP transition keeps `lastNotificationEpoch`: a trigger that goes
   * down again within the interval of its previous cycle's last send opens
   * the new cycle but does not notify on that tick.
   */
  lemma PreviousSendGatesNextCycle(t: Trigger, now: int)
    requires t.attemptsRemaining.None? && t.lastNotificationEpoch.Some?
    requires now - t.lastTriggerEpoch > t.delay
    requires now - t.lastNotificationEpoch.value <= t.notificationInterval
    ensures Step(t, now) == Notified(t.(attemptsRemaining := Some(t.notificationAttempts)), None)
  {
  }
}

/**
 * The two periodic scans over the registry: the watcher (index.js:110-130)
 * flips triggers between UP and DOWN, the notifier (index.js:132-179)
 * sends the next notification of a DOWN trigger when it is due, and a
 * later completion event records how the delivery went. Wall-clock time is
 * the parameter `now`; both scans of one tick see the same `now`.
 */
module Scheduler {
  import opened Results
  import opened Triggers
  import opened Describe

  /** One trigger's share of a watcher tick. */
  function Watch(t: Trigger, now: int): (t': Trigger)
    // After the tick the counter is null exactly when the trigger is UP.
    ensures t'.attemptsRemaining.None? <==> now - t.lastTriggerEpoch <= t.delay
    // Going down opens a cycle with the full budget.
    ensures t.attemptsRemaining.None? && t'.attemptsRemaining.Some? ==>
              t'.attemptsRemaining == Some(t.notificationAttempts)
    // A trigger that is already down keeps its counter: no second cycle.
    ensures t.attemptsRemaining.Some? && now - t.lastTriggerEpoch > t.delay ==> t' == t
    // Only the counter changes; the notification clock and status survive.
    ensures t' == t.(attemptsRemaining := t'.attemptsRemaining)
    ensures CounterOk(t) ==> CounterOk(t')
  {
    if now - t.lastTriggerEpoch > t.delay then
      if t.attemptsRemaining.None? then t.(attemptsRemaining := Some(t.notificationAttempts))
      else t
    else if t.attemptsRemaining.Some? then t.(attemptsRemaining := None)
    else t
  }

  /** A notification is due: attempts are left and the interval has passed. */
  predicate Due(t: Trigger, now: int) {
    && t.attemptsRemaining.Some?
    && t.attemptsRemaining.value > 0
    && (t.lastNotificationEpoch.None? || now - t.lastNotificationEpoch.value > t.notificationInterval)
  }

  /** A trigger after the notifier looked at it, and what it sent, if anything. */
  datatype Notified = Notified(trigger: Trigger, notice: Option<Notice>)

  /** One trigger's share of a notifier tick. */
  function Notify(t: Trigger, now: int): (r: Notified)
    // A null counter never fires, nor does an exhausted one.
    ensures t.attemptsRemaining.None? || t.attemptsRemaining.value <= 0 ==> r == Notified(t, None)
    // Within a cycle, sends are more than the interval apart.
    ensures r.notice.Some? && t.lastNotificationEpoch.Some? ==>
              now - t.lastNotificationEpoch.value > t.notificationInterval
    // The first notification of a cycle without an earlier send goes out at once.
    ensures t.attemptsRemaining.Some? && t.attemptsRemaining.value > 0 && t.lastNotificationEpoch.None? ==>
              r.notice.Some?
    // Firing takes exactly one attempt and restarts the notification clock.
    ensures r.notice.Some? ==>
              && t.attemptsRemaining.Some?
              && r.trigger == t.(attemptsRemaining := Some(t.attemptsRemaining.value - 1),
                                 lastNotificationEpoch := Some(now))
    ensures r.notice.None? ==> r.trigger == t
    // It fires exactly when a notification is due.
    ensures r.notice.Some? <==> Due(t, now)
    ensures r.trigger.attemptsRemaining.Some? == t.attemptsRemaining.Some?
    ensures CounterOk(t) ==> CounterOk(r.trigger)
  {
    if Due(t, now) then
      var left := t.attemptsRemaining.value - 1;
      var index := t.notificationAttempts - left;
      Notified(t.(attemptsRemaining := Some(left), lastNotificationEpoch := Some(now)),
               Some(Notice(index, left == 0)))
    else
      Notified(t, None)
  }

  /**
   * Under the counter invariant, a notice names a position in
   * [1, attempts], is final exactly when no attempt is left, and its text
   * reads back as that position and finality.
   */
  lemma NotifyIndex(t: Trigger, now: int)
    requires CounterOk(t)
    requires Notify(t, now).notice.Some?
    ensures var left := Notify(t, now).trigger.attemptsRemaining.value;
            var n := Notify(t, now).notice.value;
            && n.index == t.notificationAttempts - left
            && 1 <= n.index <= t.notificationAttempts
            && (n.final <==> left == 0)
            && ParseDescription(Wording(n)) == Some((n.index, n.final))
  {
    var n := Notify(t, now).notice.value;
    DescriptionRoundTrip(n.index, n.final);
  }

  /** One tick for one trigger: the watcher's pass, then the notifier's. */
  function Step(t: Trigger, now: int): Notified {
    Notify(Watch(t, now), now)
  }

  /** The watcher scan over the whole registry. */
  function WatcherTick(reg: Registry, now: int): (reg': Registry)
    ensures reg'.Keys == reg.Keys
    ensures forall name :: name in reg' ==> reg'[name] == Watch(reg[name], now)
    ensures forall name :: name in reg' ==>
              (reg'[name].attemptsRemaining.None? <==> now - reg[name].lastTriggerEpoch <= reg[name].delay)
    ensures RegistryOk(reg) ==> RegistryOk(reg')
  {
    map name | name in reg :: Watch(reg[name], now)
  }

  /** The registry after a notifier scan and the notice it dispatched, by trigger. */
  datatype Scan = Scan(registry: Registry, sent: map<string, Notice>)

  /** The notices a notifier scan dispatches, by trigger. */
  function Sends(reg: Registry, now: int): (sent: map<string, Notice>)
    ensures sent.Keys <= reg.Keys
    ensures forall name :: name in reg ==> (name in sent <==> Notify(reg[name], now).notice.Some?)
    ensures forall name :: name in sent ==> sent[name] == Notify(reg[name], now).notice.value
  {
    map name | name in reg && Notify(reg[name], now).notice.Some? :: Notify(reg[name], now).notice.value
  }

  /**
   * A notifier scan notifies exactly the due triggers. Under the counter
   * invariant each notice is numbered within its trigger's budget, counting
   * the attempts used so far, and is final exactly on the last attempt.
   */
  lemma SendsDue(reg: Registry, now: int)
    ensures forall name :: name in reg ==> (name in Sends(reg, now) <==> Due(reg[name], now))
    ensures RegistryOk(reg) ==> forall name :: name in Sends(reg, now) ==>
              var n := Sends(reg, now)[name];
              && n.index == reg[name].notificationAttempts - reg[name].attemptsRemaining.value + 1
              && 1 <= n.index <= reg[name].notificationAttempts
              && (n.final <==> reg[name].attemptsRemaining == Some(1))
  {
    if RegistryOk(reg) {
      forall name | name in Sends(reg, now)
        ensures var n := Sends(reg, now)[name];
                && n.index == reg[name].notificationAttempts - reg[name].attemptsRemaining.value + 1
                && 1 <= n.index <= reg[name].notificationAttempts
                && (n.final <==> reg[name].attemptsRemaining == Some(1))
      {
        NotifyIndex(reg[name], now);
      }
    }
  }

  /** The notifier scan over the whole registry. */
  function NotifierTick(reg: Registry, now: int): (r: Scan)
    ensures r.registry.Keys == reg.Keys
    ensures r.sent.Keys <= reg.Keys
    ensures forall name :: name in reg ==> r.registry[name] == Notify(reg[name], now).trigger
    ensures forall name :: name in reg ==>
              (name in r.sent <==> Notify(reg[name], now).notice.Some?)
    ensures forall name :: name in r.sent ==> r.sent[name] == Notify(reg[name], now).notice.value
    // The notifier never moves a trigger between UP and DOWN.
    ensures forall name :: name in reg ==>
              r.registry[name].attemptsRemaining.Some? == reg[name].attemptsRemaining.Some?
    ensures RegistryOk(reg) ==> RegistryOk(r.registry)
  {
    Scan(map name | name in reg :: Notify(reg[name], now).trigger, Sends(reg, now))
  }

  /** The body handed to the webhook. */
  datatype Payload = Payload(value1: string, value2: string)

  /** The webhook bodies of a scan's notices: the trigger's name and the notice's text. */
  function Payloads(sent: map<string, Notice>): (bodies: map<string, Payload>)
    ensures bodies.Keys == sent.Keys
    ensures forall name :: name in bodies ==> bodies[name].value1 == name
  {
    map name | name in sent :: Payload(name, Wording(sent[name]))
  }

  /** A webhook body reads back as the position and finality of its notice. */
  lemma PayloadReadsBack(sent: map<string, Notice>, name: string)
    requires name in sent && sent[name].index >= 1
    ensures ParseDescription(Payloads(sent)[name].value2) == Some((sent[name].index, sent[name].final))
  {
    DescriptionRoundTrip(sent[name].index, sent[name].final);
  }

  /** A whole tick: the watcher scan, then the notifier scan, at the same time. */
  function Tick(reg: Registry, now: int): (r: Scan)
    ensures r.registry.Keys == reg.Keys
    ensures RegistryOk(reg) ==> RegistryOk(r.registry)
  {
    NotifierTick(WatcherTick(reg, now), now)
  }

  /** Triggers do not interact: a tick moves each one as `Step` moves it alone. */
  lemma TickIsPointwise(reg: Registry, now: int, name: string)
    requires name in reg
    ensures Tick(reg, now).registry[name] == Step(reg[name], now).trigger
    ensures name in Tick(reg, now).sent <==> Step(reg[name], now).notice.Some?
    ensures name in Tick(reg, now).sent ==> Tick(reg, now).sent[name] == Step(reg[name], now).notice.value
  {
  }

  /**
   * What a tick posts for a trigger of a sound registry: the trigger's
   * name, and a text naming the notice's position within the budget.
   */
  lemma TickPayload(reg: Registry, now: int, name: string)
    requires RegistryOk(reg) && name in Tick(reg, now).sent
    ensures var n := Tick(reg, now).sent[name];
            var body := Payloads(Tick(reg, now).sent)[name];
            && 1 <= n.index <= reg[name].notificationAttempts
            && body.value1 == name
            && ParseDescription(body.value2) == Some((n.index, n.final))
  {
    TickIsPointwise(reg, now, name);
    var w := Watch(reg[name], now);
    NotifyIndex(w, now);
    PayloadReadsBack(Tick(reg, now).sent, name);
  }

  /** Watching twice at the same instant changes nothing more. */
  lemma {:induction false} WatcherIdempotent(reg: Registry, now: int)
    ensures WatcherTick(WatcherTick(reg, now), now) == WatcherTick(reg, now)
  {
    var once := WatcherTick(reg, now);
    var twice := WatcherTick(once, now);
    forall name | name in once
      ensures twice[name] == once[name]
    {
      var t := reg[name];
      if now - t.lastTriggerEpoch <= t.delay {
        assert once[name] == t.(attemptsRemaining := None);
      }
    }
  }

  /**
   * With non-negative intervals, a second notifier scan at the same
   * instant sends nothing and changes nothing: one send per trigger per tick.
   */
  lemma {:induction false} NotifierOncePerInstant(reg: Registry, now: int)
    requires forall name :: name in reg ==> reg[name].notificationInterval >= 0
    ensures NotifierTick(NotifierTick(reg, now).registry, now) ==
              Scan(NotifierTick(reg, now).registry, map[])
  {
    var once := NotifierTick(reg, now);
    var twice := NotifierTick(once.registry, now);
    forall name | name in once.registry
      ensures !Due(once.registry[name], now)
    {
      var t := reg[name];
      if Due(t, now) {
        assert once.registry[name].lastNotificationEpoch == Some(now);
      }
    }
    assert twice.sent == map[];
  }

  /** A tick neither reads nor writes the delivery status of a trigger. */
  lemma StepIgnoresStatus(t: Trigger, status: Option<string>, now: int)
    ensures Step(t.(lastNotificationStatus := status), now) ==
              Notified(Step(t, now).trigger.(lastNotificationStatus := status), Step(t, now).notice)
  {
  }

  lemma SameMaps<K, V>(a: map<K, V>, b: map<K, V>)
    requires a.Keys == b.Keys
    requires forall k :: k in a ==> a[k] == b[k]
    ensures a == b
  {
  }

  /** Two registries whose triggers send alike dispatch the same notices. */
  lemma {:induction false} SendsAlike(r1: Registry, r2: Registry, now: int)
    requires r1.Keys == r2.Keys
    requires forall name :: name in r1 ==> Notify(r1[name], now).notice == Notify(r2[name], now).notice
    ensures Sends(r1, now) == Sends(r2, now)
  {
    var s1 := Sends(r1, now);
    var s2 := Sends(r2, now);
    forall name | name in s1
      ensures name in s2 && s1[name] == s2[name]
    {
    }
    SameMaps(s1, s2);
  }

  /** The same, for notifier scans. */
  lemma SameNotices(r1: Registry, r2: Registry, now: int)
    requires r1.Keys == r2.Keys
    requires forall name :: name in r1 ==> Notify(r1[name], now).notice == Notify(r2[name], now).notice
    ensures NotifierTick(r1, now).sent == NotifierTick(r2, now).sent
  {
    SendsAlike(r1, r2, now);
  }

  /** The same, for whole ticks. */
  lemma {:induction false} SameSends(r1: Registry, r2: Registry, now: int)
    requires r1.Keys == r2.Keys
    requires forall name :: name in r1 ==> Step(r1[name], now).notice == Step(r2[name], now).notice
    ensures Tick(r1, now).sent == Tick(r2, now).sent
  {
    SameNotices(WatcherTick(r1, now), WatcherTick(r2, now), now);
  }

  /** One trigger's record after a completion and a tick, in either order. */
  lemma CompleteCommutesAt(reg: Registry, name: string, outcome: Delivery, now: int, other: string)
    requires name in reg && other in reg
    ensures Tick(Complete(reg, name, outcome), now).registry[other] ==
              Complete(Tick(reg, now).registry, name, outcome)[other]
  {
    var c := Complete(reg, name, outcome);
    TickIsPointwise(c, now, other);
    TickIsPointwise(reg, now, other);
    if other == name {
      StepIgnoresStatus(reg[name], c[name].lastNotificationStatus, now);
    }
  }

  lemma {:induction false} CompleteCommutesRegistry(reg: Registry, name: string, outcome: Delivery, now: int)
    requires name in reg
    ensures Tick(Complete(reg, name, outcome), now).registry ==
              Complete(Tick(reg, now).registry, name, outcome)
  {
    var lhs := Tick(Complete(reg, name, outcome), now).registry;
    var rhs := Complete(Tick(reg, now).registry, name, outcome);
    forall other | other in lhs
      ensures lhs[other] == rhs[other]
    {
      CompleteCommutesAt(reg, name, outcome, now, other);
    }
    SameMaps(lhs, rhs);
  }

  lemma {:induction false} CompleteCommutesSent(reg: Registry, name: string, outcome: Delivery, now: int)
    requires name in reg
    ensures Tick(Complete(reg, name, outcome), now).sent == Tick(reg, now).sent
  {
    var c := Complete(reg, name, outcome);
    forall other | other in c
      ensures Step(c[other], now).notice == Step(reg[other], now).notice
    {
      if other == name {
        StepIgnoresStatus(reg[name], c[name].lastNotificationStatus, now);
      }
    }
    SameSends(c, reg, now);
  }

  /**
   * A completion arriving before or after a tick leads to the same state
   * and the same sends: delivery outcomes never steer the schedule.
   */
  lemma CompleteCommutesWithTick(reg: Registry, name: string, outcome: Delivery, now: int)
    requires name in reg
    ensures Tick(Complete(reg, name, outcome), now) ==
              Scan(Complete(Tick(reg, now).registry, name, outcome), Tick(reg, now).sent)
  {
    CompleteCommutesRegistry(reg, name, outcome, now);
    CompleteCommutesSent(reg, name, outcome, now);
  }

  /** How one webhook call ended: `err.message` on failure. */
  datatype Delivery = Delivered | Failed(message: string)

  /**
   * The webhook's completion callback. The callback holds the trigger
   * record itself, and records are never removed, so `name` is present.
   */
  function Complete(reg: Registry, name: string, outcome: Delivery): (reg': Registry)
    requires name in reg
    ensures reg'.Keys == reg.Keys
    ensures reg'[name].lastNotificationStatus ==
              Some(if outcome.Delivered? then "OK" else outcome.message)
    ensures reg'[name] == reg[name].(lastNotificationStatus := reg'[name].lastNotificationStatus)
    ensures forall other :: other in reg && other != name ==> reg'[other] == reg[other]
  {
    var status := match outcome
      case Delivered => "OK"
      case Failed(message) => message;
    reg[name := reg[name].(lastNotificationStatus := Some(status))]
  }

  /** Of two completions for one trigger, the later one decides the recorded status. */
  lemma CompleteLastWins(reg: Registry, name: string, first: Delivery, second: Delivery)
    requires name in reg
    ensures Complete(Complete(reg, name, first), name, second) == Complete(reg, name, second)
  {
  }
}

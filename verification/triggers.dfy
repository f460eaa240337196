/**
 * The trigger record (index.js:52-60) and the registry that maps each
 * configured name to its record.
 */
module Triggers {
  import opened Results

  /**
   * One heartbeat trigger. Times and durations are integer milliseconds.
   * `attemptsRemaining` is `None` while the trigger is UP and holds the
   * number of notifications still to send while it is DOWN.
   */
  datatype Trigger = Trigger(
    delay: int,
    notificationAttempts: int,
    notificationInterval: int,
    lastTriggerEpoch: int,
    attemptsRemaining: Option<int>,
    lastNotificationEpoch: Option<int>,
    lastNotificationStatus: Option<string>)

  type Registry = map<string, Trigger>

  /** A record as configuration creates it at time `now`. */
  function Fresh(delay: int, attempts: int, interval: int, now: int): (t: Trigger)
    ensures t.attemptsRemaining.None? && t.lastNotificationEpoch.None?
    ensures t.lastNotificationStatus.None? && t.lastTriggerEpoch == now
  {
    Trigger(delay, attempts, interval, now, None, None, None)
  }

  /**
   * The counter invariant: a counter is either exactly the attempt budget
   * (set when the trigger went down) or has been decremented and never
   * below zero. With a non-negative budget this is `0 <= k <= attempts`.
   */
  predicate CounterOk(t: Trigger) {
    t.attemptsRemaining.Some? ==>
      var k := t.attemptsRemaining.value;
      k == t.notificationAttempts || 0 <= k < t.notificationAttempts
  }

  predicate RegistryOk(reg: Registry) {
    forall name :: name in reg ==> CounterOk(reg[name])
  }

  lemma CounterInRange(t: Trigger)
    requires CounterOk(t) && t.notificationAttempts >= 0 && t.attemptsRemaining.Some?
    ensures 0 <= t.attemptsRemaining.value <= t.notificationAttempts
  {
  }

  /**
   * Names a lookup on a plain JavaScript object finds although no trigger
   * was stored under them: the members of `Object.prototype`.
   */
  const InheritedNames: set<string> := {
    "constructor", "toString", "toLocaleString", "valueOf", "hasOwnProperty",
    "isPrototypeOf", "propertyIsEnumerable", "__proto__", "__defineGetter__",
    "__defineSetter__", "__lookupGetter__", "__lookupSetter__"
  }
}

/**
 * The reset branch of the POST handler (index.js:78-91), after the router
 * has pulled the trigger name and the key out of the path.
 */
module Api {
  import opened Triggers
  import opened Scheduler

  datatype ResetStatus = Forbidden | NoSuchTrigger | Fired

  function StatusCode(s: ResetStatus): int {
    match s
    case Forbidden => 403
    case NoSuchTrigger => 404
    case Fired => 200
  }

  datatype ResetReply = ResetReply(status: ResetStatus, registry: Registry)

  /**
   * Reset `name` at time `now` if `key` is the configured `secret`. The
   * key is checked before the name, and only a successful reset changes
   * anything, and then only the named trigger's `lastTriggerEpoch`.
   */
  function Reset(reg: Registry, name: string, key: string, secret: string, now: int): (r: ResetReply)
    ensures r.status == Forbidden <==> key != secret
    ensures r.status == NoSuchTrigger <==> key == secret && name !in reg
    ensures r.status != Fired ==> r.registry == reg
    ensures r.status == Fired ==>
              && name in reg
              && r.registry == reg[name := reg[name].(lastTriggerEpoch := now)]
    ensures RegistryOk(reg) ==> RegistryOk(r.registry)
  {
    if key != secret then ResetReply(Forbidden, reg)
    else if name !in reg then ResetReply(NoSuchTrigger, reg)
    else ResetReply(Fired, reg[name := reg[name].(lastTriggerEpoch := now)])
  }

  /**
   * Reset as index.js:84 writes it: the registry is a plain object, so
   * `triggers[name] == null` is false for every name the object inherits
   * from `Object.prototype`. For such a name the handler answers 200 and
   * stamps the inherited member, not any trigger.
   */
  function ResetAsWritten(reg: Registry, name: string, key: string, secret: string, now: int): (r: ResetReply)
    ensures r.status == Forbidden <==> key != secret
    ensures r.status == NoSuchTrigger <==> key == secret && name !in reg && name !in InheritedNames
    ensures name in reg ==> r == Reset(reg, name, key, secret, now)
    ensures name !in reg ==> r.registry == reg
  {
    if key != secret then ResetReply(Forbidden, reg)
    else if name !in reg && name !in InheritedNames then ResetReply(NoSuchTrigger, reg)
    else if name in reg then ResetReply(Fired, reg[name := reg[name].(lastTriggerEpoch := now)])
    else ResetReply(Fired, reg)
  }

  /**
   * The discrepancy: with no trigger named "toString", a correctly keyed
   * reset of "toString" is answered 200 as written, 404 as intended.
   */
  lemma ResetOfInheritedName(secret: string, now: int)
    ensures StatusCode(ResetAsWritten(map[], "toString", secret, secret, now).status) == 200
    ensures StatusCode(Reset(map[], "toString", secret, secret, now).status) == 404
  {
    assert "toString" in InheritedNames;
  }

  /**
   * A reset does not itself end a DOWN cycle: the next watcher tick
   * within the delay does, whatever the counter held.
   */
  lemma {:induction false} ResetThenTickIsUp(reg: Registry, name: string, secret: string, now: int, later: int)
    requires name in reg
    requires now <= later && later - now <= reg[name].delay
    ensures var r := Reset(reg, name, secret, secret, now);
            && r.registry[name].attemptsRemaining == reg[name].attemptsRemaining
            && Tick(r.registry, later).registry[name].attemptsRemaining.None?
            && name !in Tick(r.registry, later).sent
  {
    var r := Reset(reg, name, secret, secret, now);
    TickIsPointwise(r.registry, later, name);
  }
}

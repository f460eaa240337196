/**
 * The end-to-end scenarios of test.js, stated over the model: the setting
 * the test starts the service with, and what the webhook sees.
 */
module Scenarios {
  import opened Results
  import opened Text
  import opened Triggers
  import opened Describe
  import opened Config
  import opened Cycle

  /** The texts the scenarios below expect on the webhook. */
  lemma OnlyWording()
    ensures Wording(Notice(1, true)) == "1st and final notification"
  {
  }

  lemma FirstWording()
    ensures Wording(Notice(1, false)) == "1st notification"
  {
  }

  lemma FifthAndFinalWording()
    ensures Wording(Notice(5, true)) == "5th and final notification"
  {
    assert ShowInt(5) == "5";
  }

  /** `foo:1` configures one trigger with a 1 ms delay and the default single attempt. */
  lemma FooSetting(now: int)
    ensures Init("foo:1", now) == Success(map["foo" := Fresh(1, 1, 0, now)])
  {
    assert ShowInt(1) == "1";
    assert FormatShortTuple("foo", 1) == "foo:1";
    InitShort("foo", 1, now);
  }

  /** Left alone, `foo` sends exactly one notice, "1st and final notification". */
  lemma FooNotifiesOnce(now: int, start: int, count: nat)
    requires count >= CycleTicks(Fresh(1, 1, 0, now), start, ProcessingInterval)
    ensures var r := RunEvents(Fresh(1, 1, 0, now), Ticks(start, ProcessingInterval, count));
            && r.sent == [Notice(1, true)]
            && Wording(r.sent[0]) == "1st and final notification"
  {
    var t := Fresh(1, 1, 0, now);
    WholeCycle(t, start, ProcessingInterval, count);
    OnlyWording();
  }

  /** `bar:1:5:100` configures five attempts 100 ms apart. */
  lemma BarSetting(now: int)
    ensures Init("bar:1:5:100", now) == Success(map["bar" := Fresh(1, 5, 100, now)])
  {
    assert ShowInt(1) == "1" && ShowInt(5) == "5";
    assert ShowNat(10) == "10";
    assert ShowInt(100) == "100";
    assert FormatTuple(TriggerSpec("bar", 1, 5, 100)) == "bar:1:5:100";
    InitLong(TriggerSpec("bar", 1, 5, 100), now);
  }

  /** Left alone, `bar` sends exactly five notices, the 1st first and the 5th, final, last. */
  lemma BarNotifiesFiveTimes(now: int, start: int, count: nat)
    requires count >= CycleTicks(Fresh(1, 5, 100, now), start, ProcessingInterval)
    ensures var r := RunEvents(Fresh(1, 5, 100, now), Ticks(start, ProcessingInterval, count));
            && |r.sent| == 5
            && Wording(r.sent[0]) == "1st notification"
            && Wording(r.sent[4]) == "5th and final notification"
  {
    var t := Fresh(1, 5, 100, now);
    WholeCycle(t, start, ProcessingInterval, count);
    var r := RunEvents(t, Ticks(start, ProcessingInterval, count));
    assert r.sent[0] == Notice(1, false) && r.sent[4] == Notice(5, true);
    FirstWording();
    FifthAndFinalWording();
  }

  /** `baz:200:10:10` configures ten attempts 10 ms apart after a 200 ms delay. */
  lemma BazSetting(now: int)
    ensures Init("baz:200:10:10", now) == Success(map["baz" := Fresh(200, 10, 10, now)])
  {
    assert ShowInt(10) == "10";
    assert ShowNat(20) == "20";
    assert ShowInt(200) == "200";
    assert FormatTuple(TriggerSpec("baz", 200, 10, 10)) == "baz:200:10:10";
    InitLong(TriggerSpec("baz", 200, 10, 10), now);
  }

  /**
   * Reset more often than every 200 ms, `baz` never reaches the webhook,
   * however the resets and ticks interleave.
   */
  lemma BazKeptAliveIsSilent(now: int, evs: seq<Event>)
    requires KeptAlive(now, 200, evs)
    ensures RunEvents(Fresh(200, 10, 10, now), evs).sent == []
  {
    KeptAliveNeverNotifies(Fresh(200, 10, 10, now), evs);
  }
}

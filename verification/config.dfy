/**
 * Building the registry from the `TRIGGERS` setting (index.js:42-61): a
 * comma-separated list of `name:delay` or `name:delay:attempts:interval`
 * tuples, every trigger stamped with the start-up time `now`.
 */
module Config {
  import opened Results
  import opened Text
  import opened Triggers

  datatype ConfigError =
    | Duplicate(name: string)
      /** A field `parseInt` cannot read (it would store NaN). */
    | NotANumber(tuple: string)

  /** The configured part of a trigger, as one tuple spells it. */
  datatype TriggerSpec = TriggerSpec(name: string, delay: int, attempts: int, interval: int)

  function TupleName(tuple: string): string {
    Split(tuple, ':')[0]
  }

  /**
   * The fields of one tuple. With fewer than four fields the third is
   * ignored and the trigger gets one attempt and no interval; fields past
   * the fourth are ignored.
   */
  function ParseTuple(tuple: string): (r: Result<TriggerSpec, ConfigError>)
    ensures r.Success? ==> r.value.name == TupleName(tuple)
    ensures r.Success? && |Split(tuple, ':')| < 4 ==> r.value.attempts == 1 && r.value.interval == 0
    ensures r.Failure? ==> r.error == NotANumber(tuple)
    // It fails exactly when the delay is missing or unreadable, or a long
    // tuple's attempts or interval is unreadable.
    ensures var t := Split(tuple, ':');
            r.Failure? <==>
              || |t| < 2 || ParseInt(t[1]).None?
              || (|t| >= 4 && (ParseInt(t[2]).None? || ParseInt(t[3]).None?))
    // Otherwise the fields are what `parseInt` reads.
    ensures var t := Split(tuple, ':');
            r.Success? ==>
              && r.value.delay == ParseInt(t[1]).value
              && (|t| >= 4 ==> r.value.attempts == ParseInt(t[2]).value && r.value.interval == ParseInt(t[3]).value)
  {
    var t := Split(tuple, ':');
    var delay := if |t| >= 2 then ParseInt(t[1]) else None;
    var attempts := if |t| < 4 then Some(1) else ParseInt(t[2]);
    var interval := if |t| < 4 then Some(0) else ParseInt(t[3]);
    if delay.None? || attempts.None? || interval.None? then Failure(NotANumber(tuple))
    else Success(TriggerSpec(t[0], delay.value, attempts.value, interval.value))
  }

  /** The long form of a tuple. */
  function FormatTuple(s: TriggerSpec): string {
    s.name + ":" + ShowInt(s.delay) + ":" + ShowInt(s.attempts) + ":" + ShowInt(s.interval)
  }

  /** The short form, which leaves attempts and interval to their defaults. */
  function FormatShortTuple(name: string, delay: int): string {
    name + ":" + ShowInt(delay)
  }

  lemma NoSeparatorInNumber(n: int, sep: char)
    requires !IsDigit(sep) && sep != '-'
    ensures sep !in ShowInt(n)
  {
    var s := ShowInt(n);
    if n < 0 {
      assert s == [s[0]] + s[1..];
    }
  }

  lemma ParseIntExactly(n: int)
    ensures ParseInt(ShowInt(n)) == Some(n)
  {
    ParseIntShowInt(n, "");
    assert ShowInt(n) + "" == ShowInt(n);
  }

  /** The long form splits into its four fields. */
  lemma SplitFormatTuple(s: TriggerSpec)
    requires ':' !in s.name
    ensures Split(FormatTuple(s), ':') == [s.name, ShowInt(s.delay), ShowInt(s.attempts), ShowInt(s.interval)]
  {
    var parts := [s.name, ShowInt(s.delay), ShowInt(s.attempts), ShowInt(s.interval)];
    NoSeparatorInNumber(s.delay, ':');
    NoSeparatorInNumber(s.attempts, ':');
    NoSeparatorInNumber(s.interval, ':');
    assert Join(parts, ':') == FormatTuple(s) by {
      var i := ShowInt(s.interval);
      var a := ShowInt(s.attempts) + [':'] + i;
      var d := ShowInt(s.delay) + [':'] + a;
      assert Join(parts[3..], ':') == i;
      assert parts[2..][1..] == parts[3..];
      assert Join(parts[2..], ':') == a;
      assert parts[1..][1..] == parts[2..];
      assert Join(parts[1..], ':') == d;
      assert Join(parts, ':') == s.name + [':'] + d;
    }
    SplitJoin(parts, ':');
  }

  /** A tuple in the long form reads back as the spec it was written from. */
  lemma ParseFormatTuple(s: TriggerSpec)
    requires ':' !in s.name
    ensures ParseTuple(FormatTuple(s)) == Success(s)
  {
    SplitFormatTuple(s);
    ParseIntExactly(s.delay);
    ParseIntExactly(s.attempts);
    ParseIntExactly(s.interval);
  }

  /** The short form splits into its two fields. */
  lemma SplitShortTuple(name: string, delay: int)
    requires ':' !in name
    ensures Split(FormatShortTuple(name, delay), ':') == [name, ShowInt(delay)]
  {
    var parts := [name, ShowInt(delay)];
    NoSeparatorInNumber(delay, ':');
    assert Join(parts, ':') == FormatShortTuple(name, delay) by {
      assert Join(parts[1..], ':') == ShowInt(delay);
    }
    SplitJoin(parts, ':');
  }

  /** A tuple in the short form gets one attempt and a zero interval. */
  lemma ParseShortTuple(name: string, delay: int)
    requires ':' !in name
    ensures ParseTuple(FormatShortTuple(name, delay)) == Success(TriggerSpec(name, delay, 1, 0))
  {
    SplitShortTuple(name, delay);
    ParseIntExactly(delay);
  }

  /** The record a parsed tuple creates: no cycle, no notification, no status. */
  function FromSpec(spec: TriggerSpec, now: int): Trigger {
    Fresh(spec.delay, spec.attempts, spec.interval, now)
  }

  /** What start-up reads from one tuple: its name and its fields. */
  datatype Entry = Entry(name: string, parsed: Result<TriggerSpec, ConfigError>)

  function Entries(tuples: seq<string>): (es: seq<Entry>)
    ensures |es| == |tuples|
    ensures forall i :: 0 <= i < |tuples| ==>
              es[i].name == TupleName(tuples[i]) && es[i].parsed == ParseTuple(tuples[i])
  {
    seq(|tuples|, i requires 0 <= i < |tuples| => Entry(TupleName(tuples[i]), ParseTuple(tuples[i])))
  }

  /**
   * Adds the entries to `acc` in order, stopping at the first error. A name
   * already present, or one the lookup treats as present (`shadowed`), is
   * a duplicate.
   */
  function Build(es: seq<Entry>, acc: Registry, now: int, shadowed: set<string>): Result<Registry, ConfigError>
    decreases |es|
  {
    if |es| == 0 then Success(acc)
    else if es[0].name in acc || es[0].name in shadowed then Failure(Duplicate(es[0].name))
    else
      match es[0].parsed
      case Failure(e) => Failure(e)
      case Success(spec) => Build(es[1..], acc[es[0].name := FromSpec(spec, now)], now, shadowed)
  }

  /** The registry for the setting `env`, created at time `now`. */
  function Init(env: string, now: int): Result<Registry, ConfigError> {
    Build(Entries(Split(env, ',')), map[], now, {})
  }

  /**
   * Start-up as index.js:49 writes it: `triggers[name] != null` on a plain
   * object also holds for the names inherited from `Object.prototype`.
   */
  function InitAsWritten(env: string, now: int): Result<Registry, ConfigError> {
    Build(Entries(Split(env, ',')), map[], now, InheritedNames)
  }

  predicate AllParse(es: seq<Entry>) {
    forall i :: 0 <= i < |es| ==> es[i].parsed.Success?
  }

  predicate DistinctNames(es: seq<Entry>) {
    forall i, j :: 0 <= i < j < |es| ==> es[i].name != es[j].name
  }

  predicate NamesAvoid(es: seq<Entry>, taken: set<string>) {
    forall i :: 0 <= i < |es| ==> es[i].name !in taken
  }

  /** What the entries must be for start-up to accept them. */
  predicate Acceptable(es: seq<Entry>, taken: set<string>) {
    AllParse(es) && DistinctNames(es) && NamesAvoid(es, taken)
  }

  function Names(es: seq<Entry>): set<string> {
    set i | 0 <= i < |es| :: es[i].name
  }

  lemma AllParseCons(es: seq<Entry>)
    requires |es| > 0
    ensures AllParse(es) <==> es[0].parsed.Success? && AllParse(es[1..])
  {
    var rest := es[1..];
    if es[0].parsed.Success? && AllParse(rest) {
      forall i | 0 < i < |es|
        ensures es[i].parsed.Success?
      {
        assert es[i] == rest[i - 1];
      }
    }
  }

  lemma NamesCons(es: seq<Entry>, taken: set<string>)
    requires |es| > 0
    ensures DistinctNames(es) && NamesAvoid(es, taken) <==>
              es[0].name !in taken && DistinctNames(es[1..]) && NamesAvoid(es[1..], taken + {es[0].name})
  {
    var name := es[0].name;
    var rest := es[1..];
    if name !in taken && DistinctNames(rest) && NamesAvoid(rest, taken + {name}) {
      forall i, j | 0 <= i < j < |es|
        ensures es[i].name != es[j].name
      {
        assert es[j] == rest[j - 1];
        if i > 0 {
          assert es[i] == rest[i - 1];
        }
      }
      forall i | 0 < i < |es|
        ensures es[i].name !in taken
      {
        assert es[i] == rest[i - 1];
      }
    }
    if DistinctNames(es) && NamesAvoid(es, taken) {
      forall i | 0 <= i < |rest|
        ensures rest[i].name !in taken + {name}
      {
        assert rest[i] == es[i + 1];
      }
      forall i, j | 0 <= i < j < |rest|
        ensures rest[i].name != rest[j].name
      {
        assert rest[i] == es[i + 1] && rest[j] == es[j + 1];
      }
    }
  }

  /**
   * Building succeeds exactly when every entry parsed and no name repeats
   * or collides with one already taken.
   */
  lemma {:induction false} BuildSucceedsIff(es: seq<Entry>, acc: Registry, now: int, shadowed: set<string>)
    ensures Build(es, acc, now, shadowed).Success? <==> Acceptable(es, acc.Keys + shadowed)
    decreases |es|
  {
    if |es| > 0 {
      var name := es[0].name;
      AllParseCons(es);
      NamesCons(es, acc.Keys + shadowed);
      if name !in acc && name !in shadowed && es[0].parsed.Success? {
        var acc' := acc[name := FromSpec(es[0].parsed.value, now)];
        BuildSucceedsIff(es[1..], acc', now, shadowed);
        assert acc'.Keys + shadowed == acc.Keys + shadowed + {name};
      }
    }
  }

  lemma BuildCons(es: seq<Entry>, acc: Registry, now: int, shadowed: set<string>)
    requires |es| > 0 && Build(es, acc, now, shadowed).Success?
    ensures es[0].parsed.Success? && es[0].name !in acc
    ensures Build(es, acc, now, shadowed) ==
              Build(es[1..], acc[es[0].name := FromSpec(es[0].parsed.value, now)], now, shadowed)
  {
  }

  lemma {:induction false} BuildKeys(es: seq<Entry>, acc: Registry, now: int, shadowed: set<string>)
    requires Build(es, acc, now, shadowed).Success?
    ensures Build(es, acc, now, shadowed).value.Keys == acc.Keys + Names(es)
    decreases |es|
  {
    if |es| > 0 {
      var rest := es[1..];
      BuildCons(es, acc, now, shadowed);
      BuildKeys(rest, acc[es[0].name := FromSpec(es[0].parsed.value, now)], now, shadowed);
      assert Names(es) == {es[0].name} + Names(rest) by {
        forall i | 0 < i < |es|
          ensures es[i] == rest[i - 1]
        {
        }
        forall x | x in Names(rest)
          ensures x in Names(es)
        {
          var j :| 0 <= j < |rest| && rest[j].name == x;
          assert es[j + 1] == rest[j];
        }
      }
    }
  }

  lemma {:induction false} BuildKeepsEarlier(es: seq<Entry>, acc: Registry, now: int, shadowed: set<string>)
    requires Build(es, acc, now, shadowed).Success?
    ensures forall k :: k in acc ==> k in Build(es, acc, now, shadowed).value
    ensures forall k :: k in acc ==> Build(es, acc, now, shadowed).value[k] == acc[k]
    decreases |es|
  {
    if |es| > 0 {
      BuildCons(es, acc, now, shadowed);
      BuildKeepsEarlier(es[1..], acc[es[0].name := FromSpec(es[0].parsed.value, now)], now, shadowed);
    }
  }

  lemma {:induction false} BuildRecords(es: seq<Entry>, acc: Registry, now: int, shadowed: set<string>)
    requires Build(es, acc, now, shadowed).Success?
    ensures forall i :: 0 <= i < |es| ==>
              && es[i].parsed.Success?
              && es[i].name in Build(es, acc, now, shadowed).value
              && Build(es, acc, now, shadowed).value[es[i].name] == FromSpec(es[i].parsed.value, now)
    decreases |es|
  {
    if |es| > 0 {
      var rest := es[1..];
      var acc' := acc[es[0].name := FromSpec(es[0].parsed.value, now)];
      BuildCons(es, acc, now, shadowed);
      BuildRecords(rest, acc', now, shadowed);
      BuildKeepsEarlier(rest, acc', now, shadowed);
      forall i | 0 < i < |es|
        ensures es[i] == rest[i - 1]
      {
      }
    }
  }

  predicate TuplesParse(tuples: seq<string>) {
    forall i :: 0 <= i < |tuples| ==> ParseTuple(tuples[i]).Success?
  }

  predicate TupleNamesDistinct(tuples: seq<string>) {
    forall i, j :: 0 <= i < j < |tuples| ==> TupleName(tuples[i]) != TupleName(tuples[j])
  }

  /**
   * `reg` holds exactly one record per tuple, under the tuple's name, as
   * the tuple configures it and stamped `now`.
   */
  predicate HoldsTuples(reg: Registry, tuples: seq<string>, now: int)
    requires TuplesParse(tuples)
  {
    && reg.Keys == (set i | 0 <= i < |tuples| :: TupleName(tuples[i]))
    && forall i :: 0 <= i < |tuples| ==>
         && TupleName(tuples[i]) in reg
         && reg[TupleName(tuples[i])] == FromSpec(ParseTuple(tuples[i]).value, now)
  }

  lemma TuplesSucceedIff(tuples: seq<string>, now: int)
    ensures Build(Entries(tuples), map[], now, {}).Success? <==>
              TuplesParse(tuples) && TupleNamesDistinct(tuples)
  {
    var es := Entries(tuples);
    var empty: Registry := map[];
    BuildSucceedsIff(es, empty, now, {});
    assert empty.Keys + {} == {};
    assert NamesAvoid(es, {});
    if AllParse(es) {
      forall i | 0 <= i < |tuples|
        ensures ParseTuple(tuples[i]).Success?
      {
        assert es[i].parsed.Success?;
      }
    }
    if DistinctNames(es) {
      forall i, j | 0 <= i < j < |tuples|
        ensures TupleName(tuples[i]) != TupleName(tuples[j])
      {
        assert es[i].name != es[j].name;
      }
    }
  }

  /** A registry built from nothing holds one fresh record per entry, under the entry's name. */
  lemma BuildFresh(es: seq<Entry>, now: int)
    requires Build(es, map[], now, {}).Success?
    ensures var reg := Build(es, map[], now, {}).value;
            && reg.Keys == Names(es)
            && RegistryOk(reg)
            && forall i :: 0 <= i < |es| ==>
                 es[i].parsed.Success? && es[i].name in reg && reg[es[i].name] == FromSpec(es[i].parsed.value, now)
  {
    var empty: Registry := map[];
    BuildKeys(es, empty, now, {});
    BuildRecords(es, empty, now, {});
    var reg := Build(es, empty, now, {}).value;
    forall k | k in reg
      ensures CounterOk(reg[k])
    {
      var i :| 0 <= i < |es| && es[i].name == k;
    }
  }

  lemma NamesOfEntries(tuples: seq<string>)
    ensures Names(Entries(tuples)) == (set i | 0 <= i < |tuples| :: TupleName(tuples[i]))
  {
  }

  lemma TuplesContents(tuples: seq<string>, now: int)
    requires Build(Entries(tuples), map[], now, {}).Success?
    ensures TuplesParse(tuples)
    ensures HoldsTuples(Build(Entries(tuples), map[], now, {}).value, tuples, now)
    ensures RegistryOk(Build(Entries(tuples), map[], now, {}).value)
  {
    var es := Entries(tuples);
    BuildFresh(es, now);
    NamesOfEntries(tuples);
  }

  /** Start-up succeeds exactly when every tuple parses and no name repeats. */
  lemma InitSucceedsIff(env: string, now: int)
    ensures Init(env, now).Success? <==>
              TuplesParse(Split(env, ',')) && TupleNamesDistinct(Split(env, ','))
  {
    TuplesSucceedIff(Split(env, ','), now);
  }

  /**
   * A registry start-up builds has one fresh record per tuple, under the
   * tuple's name and stamped `now`, and satisfies the counter invariant.
   */
  lemma InitContents(env: string, now: int)
    requires Init(env, now).Success?
    ensures TuplesParse(Split(env, ','))
    ensures HoldsTuples(Init(env, now).value, Split(env, ','), now)
    ensures RegistryOk(Init(env, now).value)
  {
    TuplesContents(Split(env, ','), now);
  }

  /** A setting of one tuple builds the registry of that tuple alone. */
  lemma InitSingle(env: string, now: int)
    requires ',' !in env
    requires ParseTuple(env).Success?
    ensures Init(env, now) == Success(map[TupleName(env) := FromSpec(ParseTuple(env).value, now)])
  {
    SplitWithoutSep(env, ',');
    var es := Entries([env]);
    var empty: Registry := map[];
    var record := FromSpec(ParseTuple(env).value, now);
    assert es == [Entry(TupleName(env), ParseTuple(env))];
    assert es[1..] == [];
    assert Build(es, empty, now, {}) == Build([], empty[TupleName(env) := record], now, {});
  }

  /** A one-tuple setting in the short form, as the end-to-end tests use. */
  lemma InitShort(name: string, delay: int, now: int)
    requires ':' !in name && ',' !in name
    ensures Init(FormatShortTuple(name, delay), now) == Success(map[name := Fresh(delay, 1, 0, now)])
  {
    NoSeparatorInNumber(delay, ',');
    ParseShortTuple(name, delay);
    InitSingle(FormatShortTuple(name, delay), now);
  }

  /** A one-tuple setting in the long form. */
  lemma InitLong(s: TriggerSpec, now: int)
    requires ':' !in s.name && ',' !in s.name
    ensures Init(FormatTuple(s), now) == Success(map[s.name := FromSpec(s, now)])
  {
    NoSeparatorInNumber(s.delay, ',');
    NoSeparatorInNumber(s.attempts, ',');
    NoSeparatorInNumber(s.interval, ',');
    ParseFormatTuple(s);
    InitSingle(FormatTuple(s), now);
  }

  /** Names no entry uses play no part in building. */
  lemma {:induction false} BuildIgnoresShadow(es: seq<Entry>, acc: Registry, now: int, shadowed: set<string>)
    requires NamesAvoid(es, shadowed)
    ensures Build(es, acc, now, shadowed) == Build(es, acc, now, {})
    decreases |es|
  {
    if |es| > 0 {
      assert NamesAvoid(es[1..], shadowed) by {
        forall i | 0 <= i < |es| - 1
          ensures es[1..][i] == es[i + 1]
        {
        }
      }
      assert es[0].name !in shadowed;
      if es[0].name !in acc && es[0].parsed.Success? {
        BuildIgnoresShadow(es[1..], acc[es[0].name := FromSpec(es[0].parsed.value, now)], now, shadowed);
      }
    }
  }

  predicate AvoidsInherited(tuples: seq<string>) {
    forall i :: 0 <= i < |tuples| ==> TupleName(tuples[i]) !in InheritedNames
  }

  /**
   * Start-up as written succeeds exactly when the intended start-up does
   * and no tuple is named after a member of `Object.prototype`.
   */
  lemma InitAsWrittenSucceedsIff(env: string, now: int)
    ensures InitAsWritten(env, now).Success? <==>
              Init(env, now).Success? && AvoidsInherited(Split(env, ','))
  {
    var tuples := Split(env, ',');
    var es := Entries(tuples);
    var empty: Registry := map[];
    BuildSucceedsIff(es, empty, now, InheritedNames);
    BuildSucceedsIff(es, empty, now, {});
    assert empty.Keys + InheritedNames == InheritedNames;
    assert empty.Keys + {} == {};
    assert NamesAvoid(es, {});
    assert NamesAvoid(es, InheritedNames) <==> AvoidsInherited(tuples);
  }

  /** Away from the inherited names, start-up as written builds what the intended one builds. */
  lemma InitAsWrittenAgrees(env: string, now: int)
    requires AvoidsInherited(Split(env, ','))
    ensures InitAsWritten(env, now) == Init(env, now)
  {
    var es := Entries(Split(env, ','));
    assert NamesAvoid(es, InheritedNames);
    BuildIgnoresShadow(es, map[], now, InheritedNames);
  }

  /** A setting with a tuple that has no colon, hence no delay field, is refused. */
  lemma MissingDelayRefused(env: string, now: int, i: nat)
    requires i < |Split(env, ',')| && ':' !in Split(env, ',')[i]
    ensures Init(env, now).Failure?
  {
    var tuples := Split(env, ',');
    SplitWithoutSep(tuples[i], ':');
    assert !ParseTuple(tuples[i]).Success?;
    InitSucceedsIff(env, now);
  }

  /** A setting that is one tuple without a colon is refused for its missing delay. */
  lemma LoneNameRefused(env: string, now: int)
    requires ',' !in env && ':' !in env
    ensures Init(env, now) == Failure(NotANumber(env))
  {
    SplitWithoutSep(env, ',');
    SplitWithoutSep(env, ':');
    assert ParseTuple(env) == Failure(NotANumber(env));
  }

  /**
   * The only settings the configuration check of index.js:39-40 rejects
   * end in the literal text `{oneConfPattern}`; the model's start-up
   * refuses that text as a tuple with no delay.
   */
  lemma PatternTextRefused(now: int)
    ensures Init("{oneConfPattern}", now) == Failure(NotANumber("{oneConfPattern}"))
  {
    LoneNameRefused("{oneConfPattern}", now);
  }

  /**
   * The discrepancy: a trigger named "toString" is refused as a duplicate
   * as written, although it is the only tuple.
   */
  lemma InheritedNameRefused(now: int)
    ensures InitAsWritten(FormatShortTuple("toString", 1000), now) == Failure(Duplicate("toString"))
    ensures Init(FormatShortTuple("toString", 1000), now).Success?
  {
    var env := FormatShortTuple("toString", 1000);
    InitShort("toString", 1000, now);
    NoSeparatorInNumber(1000, ',');
    SplitWithoutSep(env, ',');
    ParseShortTuple("toString", 1000);
    assert "toString" in InheritedNames;
  }
}

# Dead person's switch: trigger cycle and notification scheduler

A Dafny model of the core of the dead person's switch service (`index.js`).
The service keeps a registry of named triggers. Each trigger has:

- a delay;
- a budget of notification attempts;
- an interval between notifications;
- the time it was last reset (`lastTriggerEpoch`);
- a counter of attempts remaining. The counter is null while the trigger is UP and a number while it is DOWN;
- the time of the last notification;
- the status of the last delivery.

An authorised `POST /trigger/<name>/with/key/<secret>` resets a trigger.
Two periodic scans drive everything else:

- The **watcher** puts a trigger DOWN when it has not been reset within its delay. It brings the trigger back UP when it has.
- The **notifier** sends a DOWN trigger's notifications to a webhook. It sends at most one per scan, spaced more than the interval apart, until the budget is spent. Each notification carries a text such as "2nd notification" or "5th and final notification".

The registry is read once at start-up from a setting of the form
`name:delay[:attempts:interval],...`.

Modules, in dependency order:

- `Results` (`results.dfy`): `Option` and `Result`.
- `Text` (`text.dfy`): JavaScript's `split`, `join` and `parseInt(s, 10)`, and the decimal rendering of integers.
- `Triggers` (`triggers.dfy`): the trigger record, the registry, and the counter invariant.
- `Describe` (`describe.dfy`): the notification text, and a reader that parses it back.
- `Scheduler` (`scheduler.dfy`): the watcher and notifier, for one trigger and for the whole registry, plus the delivery callback.
- `Api` (`reset.dfy`): the reset request.
- `Config` (`config.dfy`): start-up parsing of the trigger setting.
- `Cycle` (`cycle.dfy`): runs of a trigger over a sequence of ticks and resets, and what a whole DOWN cycle sends.
- `Scenarios` (`scenarios.dfy`): the three settings the repository's end-to-end test uses, with what the model says each one sends.

Time is an integer parameter `now`; nothing reads a clock. The watcher and the
notifier run on intervals of the same period, and the watcher's interval is registered first. So one tick is modelled as the watcher scan followed by the notifier scan, both at the same `now` (`Scheduler.Tick`, `Scheduler.Step`).

On the DOWN→UP transition `index.js:125-128` clears only the counter.
`lastNotificationEpoch` survives, so a trigger that goes down again within
one interval of its previous notification waits for that interval
(`Cycle.PreviousSendGatesNextCycle`).

`index.js:46` ends without a comma, so `notificationInterval` on line 47 is assigned as an implicit global rather than declared. The record on lines 52-60 is built in the same iteration, so each trigger still gets its own interval, and the model gives it exactly that.

## Model

| member | source | states |
|---|---|---|
| Text.ParseIntShowInt | index.js:45-47 | `parseInt(·, 10)` reads back the decimal text of any integer, negative ones included. It stops at the first character after the digits that is not a digit. |
| Text.JoinSplit | index.js:42-43 | Splitting a setting on a separator loses no character: joining the parts with the separator gives back the original string. |
| Text.SplitJoin | index.js:42-43 | Parts that do not contain the separator are recovered exactly by splitting their join, so each tuple and field is seen as it was written. |
| Triggers.CounterInRange | index.js:119-144 | Under the counter invariant, the attempts remaining of a DOWN trigger lie between 0 and the configured number of attempts. |
| Describe.ParseOrdinalRoundTrip | index.js:149-154 | Each positive notification index is named by an ordinal that reads back as that index: "1st", "2nd", "3rd", otherwise the number followed by "th". |
| Describe.DescriptionRoundTrip | index.js:147-159 | A notification text determines its index and whether it was the final one. " and final" appears exactly on the final one. |
| Describe.DescriptionInjective | index.js:147-159 | Two notices that differ in position or finality never get the same text. |
| Config.ParseTuple | index.js:43-47 | The trigger's name is the text before the first colon. A tuple fails, with an error naming it, exactly when it has no delay field, the delay is unreadable, or a tuple of four or more fields has an unreadable attempts or interval. Otherwise the fields are what `parseInt` reads. With fewer than four fields the trigger gets one attempt and no interval. |
| Config.ParseFormatTuple | index.js:43-47 | A four-field tuple reads back as the delay, attempts and interval it was written from. |
| Config.ParseShortTuple | index.js:46-47 | A two-field tuple gives its delay, exactly one attempt, and a zero interval. |
| Config.BuildSucceedsIff | index.js:42-50 | Adding tuples in order succeeds exactly when every tuple parses and no name repeats an earlier one or one already registered. |
| Config.InitSucceedsIff | index.js:42-61 | Start-up succeeds exactly when every tuple of the setting parses and no two tuples share a name. |
| Config.InitContents | index.js:52-60 | After a successful start-up the registry holds one record per tuple name and nothing else. Each record is configured as its tuple says, stamped with the start-up time, UP, never notified and with no delivery status. Every counter is within bounds. |
| Config.InitSingle | index.js:42-61 | A setting of one tuple yields a registry holding exactly that trigger. |
| Config.InitShort | index.js:42-61 | The setting `name:delay` yields exactly one fresh trigger with one attempt and no interval. |
| Config.InitLong | index.js:42-61 | The setting `name:delay:attempts:interval` yields exactly one fresh trigger with those values. |
| Config.MissingDelayRefused | index.js:43-45 | A setting in which any tuple has no colon, and so no delay for `parseInt` to read, is refused at start-up. |
| Config.LoneNameRefused | index.js:43-45 | A setting that is a single tuple with no colon fails with `NotANumber` for that tuple, because it has no delay field. |
| Config.PatternTextRefused | index.js:39-45 | The setting `{oneConfPattern}`, which the configuration check as written does reject, is refused by start-up too, as a tuple with no delay. |
| Config.InitAsWrittenSucceedsIff | index.js:49-50 | With the duplicate test as written, start-up succeeds exactly when the intended start-up does and no tuple is named after a member of `Object.prototype`. |
| Config.InitAsWrittenAgrees | index.js:49-50 | When no tuple is named after a member of `Object.prototype`, the duplicate test as written builds the same registry as the intended one. |
| Config.InheritedNameRefused | index.js:49-50 | The setting `toString:1000` is refused as a duplicate as written, but is a valid single trigger. |
| Scheduler.Watch | index.js:116-128 | After the watcher looks at a trigger, its counter is null exactly when the trigger was reset within its delay. Going DOWN opens a cycle with the full budget. A trigger that stays DOWN keeps its counter, so it never opens a second cycle. Only the counter changes. The counter invariant is kept. |
| Scheduler.Notify | index.js:138-159 | A trigger sends exactly when it has attempts left and either has never sent or sent more than the interval ago. So a null or exhausted counter never sends, sends come more than the interval apart, and the first send of a cycle with no earlier send goes out at once. Sending takes exactly one attempt and restarts the notification clock at `now`. Not sending changes nothing. The notifier never moves a trigger between UP and DOWN. The counter invariant is kept. |
| Scheduler.NotifyIndex | index.js:144-157 | A notice is numbered by the attempts already used, lies between 1 and the budget, and is final exactly when no attempt remains. Its text reads back as that number and finality. |
| Scheduler.WatcherTick | index.js:110-130 | The watcher scan keeps the set of triggers. It treats each trigger on its own. Afterwards each trigger is UP exactly when it was reset within its delay. |
| Scheduler.SendsDue | index.js:133-157 | A notifier scan sends a notice for exactly the triggers that are due, at most one each. Under the counter invariant each notice counts the attempts used so far, lies within the trigger's budget, and is final exactly on the last attempt. |
| Scheduler.NotifierTick | index.js:132-179 | The notifier scan keeps the set of triggers and updates each one independently. It sends for exactly the triggers that are due. It never moves a trigger between UP and DOWN, and it keeps every counter within bounds. |
| Scheduler.PayloadReadsBack | index.js:161-164 | The `value2` text of each webhook body reads back as the index and finality of the notice it reports. |
| Scheduler.Tick | index.js:110-179 | A full tick keeps the set of triggers and every counter within bounds. |
| Scheduler.TickIsPointwise | index.js:110-179 | What a tick does to a trigger, and what it sends for it, depends only on that trigger and `now`. |
| Scheduler.TickPayload | index.js:144-164 | Every body a tick posts is named after its trigger, numbered within the trigger's budget, and reads back as that number and finality. |
| Scheduler.WatcherIdempotent | index.js:116-128 | A second watcher scan at the same instant changes nothing. |
| Scheduler.NotifierOncePerInstant | index.js:138-145 | With non-negative intervals, a second notifier scan at the same instant sends nothing and changes nothing. So a trigger sends at most once per instant. |
| Scheduler.StepIgnoresStatus | index.js:138-176 | The delivery status is never read by the scans. A trigger's status does not affect what it does or sends, and the scans leave the status alone. |
| Scheduler.Complete | index.js:165-176 | A delivery's completion records "OK" or the error's message as that trigger's status and changes nothing else. |
| Scheduler.CompleteLastWins | index.js:165-176 | When two deliveries for the same trigger complete, the later completion's status is the one kept. |
| Scheduler.CompleteCommutesWithTick | index.js:165-176 | A completion that arrives before a tick has the same effect as one that arrives after it. The tick sends the same notices either way. |
| Api.Reset | index.js:81-91 | A wrong key is refused with 403, whether or not the trigger exists. With the right key an unknown trigger is 404. A reset with the right key of a known trigger answers 200 and moves only that trigger's reset time to `now`. Every other request leaves the registry unchanged. |
| Api.ResetAsWritten | index.js:81-91 | With the lookup as written, a name inherited from `Object.prototype` passes the existence check. For configured names it behaves exactly like the intended reset. |
| Api.ResetOfInheritedName | index.js:84-85 | As written, resetting the unconfigured name "toString" with the right key answers 200, where the intended reset answers 404. |
| Api.ResetThenTickIsUp | index.js:87-128 | A reset alone does not end a DOWN cycle. Any tick within the delay after the reset brings the trigger UP and sends nothing for it. |
| Cycle.RunTicksIsRunEvents | index.js:110-179 | Running a trigger tick by tick at a fixed period is the same as applying the corresponding tick events in order. |
| Cycle.AtMostBudget | index.js:117-144 | Without resets, and with time not running backwards, a trigger sends no more than its remaining budget (a full budget if UP), however the ticks are timed. |
| Cycle.ExhaustedIsSilent | index.js:119-138 | A DOWN trigger whose budget is spent stays silent and unchanged on every tick until it is reset. |
| Cycle.KeptAliveNeverNotifies | index.js:116-128 | A trigger reset often enough that no tick falls more than its delay after the latest reset never sends. After such a final tick it is UP. |
| Cycle.ExpectedShape | index.js:148-157 | The notices that finish a cycle with `k` attempts left are numbered consecutively from `attempts - k + 1`, and only the last is final. |
| Cycle.WaitThenGoDown | index.js:116-145 | A fresh trigger stays quiet until the first tick past its delay. That tick puts it DOWN and sends the first notice at once. |
| Cycle.WaitThenSend | index.js:138-145 | A DOWN trigger with attempts left stays quiet until the first tick more than the interval after its last send, and sends the next notice on that tick. |
| Cycle.NextSend | index.js:138-145 | At a fixed tick period, a DOWN trigger with attempts left sends its next notice exactly one send-spacing of ticks after the previous one. |
| Cycle.Burst | index.js:138-159 | A DOWN trigger with `k` attempts left sends its remaining `k` notices, in order and at regular spacing, and ends with none left. |
| Cycle.WholeCycleTicks | index.js:110-179 | Left unreset for long enough, a fresh trigger sends exactly the full sequence of its notices, then stays DOWN and silent with no attempt left. |
| Cycle.WholeCycle | index.js:110-179 | A fresh trigger with `n` attempts that is never reset sends exactly `n` notices, numbered 1 to `n`, and only the last is final. |
| Cycle.ReopenedFirstSend | index.js:117-145 | A trigger back UP after an earlier cycle goes DOWN on its first tick past the delay. It sends its 1st notice on the first tick more than the interval after the earlier cycle's last send, which may be that same tick. |
| Cycle.ReopenedCycle | index.js:110-179 | Every later cycle is whole too. A trigger back UP after an earlier cycle (its last send time kept), if never reset again, sends exactly `n` notices, numbered 1 to `n`, with only the last final, and then stays silent. |
| Cycle.PreviousSendGatesNextCycle | index.js:125-141 | Going UP keeps the time of the last send. A trigger that goes DOWN again within one interval of it opens its new cycle but does not send on that tick. |
| Scenarios.FooSetting | test.js:113-119 | The setting `foo:1` yields one trigger with delay 1, one attempt and no interval. |
| Scenarios.FooNotifiesOnce | test.js:107-127 | Left alone, trigger `foo` sends exactly one notification, worded "1st and final notification". |
| Scenarios.BarSetting | test.js:133-139 | The setting `bar:1:5:100` yields one trigger with delay 1, five attempts and a 100 ms interval. |
| Scenarios.BarNotifiesFiveTimes | test.js:128-146 | Left alone, trigger `bar` sends exactly five notifications, from "1st notification" to "5th and final notification". |
| Scenarios.BazSetting | test.js:152-158 | The setting `baz:200:10:10` yields one trigger with a 200 ms delay, ten attempts and a 10 ms interval. |
| Scenarios.BazKeptAliveIsSilent | test.js:147-172 | Trigger `baz`, when reset at least every 200 ms, never sends. |

## Left out

- The HTTP server (`index.js:65-108`): the route regex, the 400 answers, the unauthenticated status page and the authenticated registry dump are left out. Only the reset request (lines 81-91) is modelled, taking the name and key the route extracts.
- Environment checks (`index.js:20-37`) and the `WEBHOOK_URL` parse: these are start-up I/O.
- Config regex (`index.js:12-15`, `39-40`): the configuration pattern ends in the literal text `{oneConfPattern}`, which was never interpolated, and the test is not negated. JavaScript reads the braces as literal characters. So as written the check rejects only settings that end in the literal text `{oneConfPattern}`, such as `foo:1,{oneConfPattern}`. The model has no separate format check. Its start-up refuses these settings too, because the last tuple has no delay field (`Config.MissingDelayRefused`, `Config.PatternTextRefused`).
- Timers: `setInterval` with `PROCESSING_INTERVAL` becomes explicit tick events. `Cycle.ProcessingInterval` is 10, but runs take the period as a parameter. Drift between the two timers is not modelled: each tick is one watcher scan then one notifier scan.
- `Date.now()`: the notifier reads the clock twice when it fires (lines 140 and 145). The model uses one `now` per tick.
- Config.Init: stamps every trigger with one start-up time `now`. `index.js:56` reads `Date.now()` once per tuple, so triggers listed later may get a slightly later `lastTriggerEpoch`.
- Webhook delivery: `post-json.js`, `drain-stream.js`, the 5000 ms timeout and the transport are left out. Delivery is an outcome (`Scheduler.Delivery`) handed to `Scheduler.Complete`.
- Logging (lines 63, 88-89, 120, 126, 167-168, 172-173) and signal handling (lines 181-190) have no effect on the registry.
- Config.ParseTuple: a field `parseInt` cannot read is start-up error `NotANumber`. The source would store `NaN` and run with it, so that trigger's behaviour is not modelled.
- Text.ParseInt: only ASCII space, tab, line feed and carriage return count as leading white space. Other Unicode white space is not modelled.
- JavaScript numbers are doubles. The model's integers are exact, so precision loss beyond 2^53 is not modelled.
- Scheduler.Complete: requires the trigger to be in the registry. A completion callback holds its trigger object, and the source never removes triggers.
- Triggers.CounterInRange: requires a non-negative number of attempts. The setting allows a negative count, because `parseInt` accepts a sign. Such a trigger's counter is set to that negative count when it goes DOWN, so no range holds. It never sends, because the notifier fires only on a positive counter.
- Object.prototype: a reset of `__proto__` as written writes onto `Object.prototype` itself. The model records only that the reset succeeds (see Findings).

## Findings

| source | as written | input that shows it | evidently intended | confidence | as-written member | corrected member |
|---|---|---|---|---|---|---|
| index.js:84 | `triggers[triggerName] == null` looks the name up in a plain object, so names inherited from `Object.prototype` count as triggers | `POST /trigger/toString/with/key/<secret>` when no trigger is named `toString` | 404 "There is no such trigger"; as written it answers 200 | high; not executed | Api.ResetAsWritten (Api.ResetOfInheritedName) | Api.Reset |
| index.js:49 | `triggers[triggerName] != null` on the same plain object treats inherited names as already configured | `TRIGGERS=toString:1000` | one trigger named `toString`; as written start-up fails with "Duplicate event toString" | high; not executed | Config.InitAsWritten (Config.InheritedNameRefused, Config.InitAsWrittenSucceedsIff) | Config.Init |

# Proofs about 7mimi-agent

This project models the parts of 7mimi-agent whose behaviour does not follow from reading one function,
and proves what they promise, for all inputs and over all runs:

- **Cron** (`Calendar`, `CronField`, `CronPrinter`, `Cron`, `CronGrammar`, `CronCap`, `CronLeapDay`,
  `CronExpressions`): the field parser against its meaning, a printer and a grammar, the day rule, the capped search for
  the next match over a real Gregorian calendar, and the exact condition under which the 366-day cap suffices.
- **Scheduler** (`Scheduler`, `SchedulerRuns`, `DeadlineRace`): passes, retries, double-fire prevention,
  notification, the resident loop, and attempts whose deadline races with their worker threads.
- **Slack messages** (`Chunker`, `ChunkerProof`, `Utf8`, `Posting`): the chunker, whose running length mixes UTF-8 octets
  with runes, and the posting loop.
- **Sessions and `/mcp`** (`SessionStore`, `Policy`, `McpGate`): a store that deletes expired tokens lazily and in
  sweeps, refined to one that never deletes, and concurrent requests that use it in two critical sections.
- **Redaction** (`Redaction`, `RedactionLaw`, `RedactionTable`, `RedactionWords`, `RedactionParity`,
  `RedactionHiddenWord`): what a pass replaces, a general normal-form theorem, the exact condition for it on configured
  tables, the five shipped patterns, and when the Go and the Python redactor agree.
- **Token caches** (`TokenCache`), **collection under retries** (`Collector`), **path policy** (`PathPolicy`),
  **Job polling** (`JobPolling`).

`Text` and `Arithmetic` hold shared lemmas. `dafny verify dfyconfig.toml` checks everything.

Objects that the program updates in place are classes (`SessionStore.Store`, `Scheduler.Engine`,
`TokenCache.TokenSource`, `Collector.Repository`), loops are methods with invariants, and each is proved against a
function about which the theorems are stated. Concurrency is a step system: a state, the steps that are enabled in it,
and an invariant of every sequence of steps.

Conventions: cron minutes count from 1 January of year 1, 00:00, and `datetime` values are microseconds from there.
The scheduler works in a time zone of fixed offset, so local time is naive. Session times are any integer unit; the
token caches and the polling loop count milliseconds. White space follows Python's `str.split`.

## What came out

- The 366-day cap is enough exactly for schedules that can match by weekday or have a (month, day) that exists in every
  year (`CapTheorem`); the rest raise from some start, and those without 29 February from every start
  (`OutsideTheCap`): `0 0 30 2 *` is one (`NeverExpression`). Those with 29 February raise from exactly the starts that
  `LeapDayStarts` names, so `0 0 29 2 *` asked on 1 January raises in every year that is not leap (`LeapDayExpression`).
- The cap cannot be one minute smaller (`CapIsTight`): the search from midnight of 1 March before a leap year succeeds on
  the very last minute it looks at.
- A resident-loop pass lands on the previous minute plus one plus the whole minutes the pass took (`WakeStep`), because
  the loop sleeps for what was left of the minute *before* the pass. A pass of a minute or more therefore loses minutes
  (`LongPassSkips`), and shorter ones lose none (`EveryMatchedMinuteFires`).
- A message of newlines alone is answered with 200 and posts nothing (`NoChunks`).
- Redaction is a normal form for the shipped table, and for every table whose patterns match no bracket and nothing in
  their own or a later pattern's marker. For bracket-free tables in general the exact condition is that no pattern matches
  in what later passes leave of the marker of a pattern that can fire (`TableLaw`, `FiresIff`).
- The Go table is a port that a parity test guards, but the engines differ: `\s` of Python's takes more white space (vertical
  tab, no-break space and the rest of Unicode), and its `(?i)` also takes a dotted capital and a dotless small i for i. Word
  by word that is the whole difference (`WordParity`). The redactors agree on every text of characters treated alike
  (`AlikeAgree`), and in general exactly if Python replaces no word with one of the others (`EnginesAgreeIff`). An
  assignment word that only Python accepts always makes the outputs differ; a Bearer word may be broken up before it is
  looked for, and then does not (`HiddenWordAgrees`). Under both engines the output is a normal form.
- The documented cron syntax has numbers, lists, ranges, and steps after `*` and after ranges. The code takes more, exactly
  the grammar of `CronGrammar`: a step after a single value, white space around numbers, a plus sign, leading zeros, single
  underscores between digits, and a minus sign where it does not read as that of a range, as in `0--0`.
- A raising notifier changes which jobs of a pass are dispatched in one way only: those after the job whose result it
  raised on are left out (`DispatchedIffReached`). All statements about runs hold under such notifiers.
- A worker that hangs never blocks the retry loop (`EngineFinishes`).

## Model

| member | source | states |
|---|---|---|
| `Calendar.DateOf` | src/shichimimi_agent/scheduler/cron.py:106-119 | stepping day by day from 1 January of year 1 always gives an existing Gregorian date |
| `Calendar.DayNumberOfDate` | src/shichimimi_agent/scheduler/cron.py:106-128 | adding up year and month lengths inverts the stepped calendar on every day |
| `Calendar.DateOfDayNumber` | src/shichimimi_agent/scheduler/cron.py:106-128 | every existing date is reached, at the day its lengths add up to |
| `Calendar.Anniversary` | src/shichimimi_agent/scheduler/cron.py:121-128 | a date of every year recurs after 365 or 366 days |
| `Calendar.DaysBeforeYearFormula` | src/shichimimi_agent/scheduler/cron.py:106-119 | the days before a year are 365 for each year before it plus its quarters less its hundredths plus its four-hundredths, as `datetime` reckons |
| `Calendar.Epoch` | src/shichimimi_agent/scheduler/cron.py:106-119 | 1 January 1970 is day 719162 and a Thursday |
| `Calendar.WeekdaySteps` | src/shichimimi_agent/scheduler/cron.py:106-119 | each day has the weekday after that of the day before |
| `CronField.ParsePart` | src/shichimimi_agent/scheduler/cron.py:28-59 | an accepted comma part is a progression with positive step inside the field's bounds, never empty |
| `CronField.AddProgression` | src/shichimimi_agent/scheduler/cron.py:61-62 | the inner loop adds exactly the members of the arithmetic progression |
| `CronField.ParseField` | src/shichimimi_agent/scheduler/cron.py:26-66 | the loop returns the first failing part's error or the union of the progressions, and its final emptiness test never fires |
| `CronPrinter.FieldMeaning` | src/shichimimi_agent/scheduler/cron.py:26-66 | accepted exactly when every part is; then the values are exactly those some part reaches, nonempty and in range |
| `CronPrinter.StarIsFull` | src/shichimimi_agent/scheduler/cron.py:44-45 | `*` parses to the whole range |
| `CronGrammar.NumberIsRead` | src/shichimimi_agent/scheduler/cron.py:36-55 | every text of white space, sign, digits with single underscores, white space is read as that number |
| `CronGrammar.PartIsRead` | src/shichimimi_agent/scheduler/cron.py:28-59 | every text of the grammar of parts is read as what it stands for, and refused exactly when that is out of bounds or its step not positive |
| `CronGrammar.ReadIsPart` | src/shichimimi_agent/scheduler/cron.py:28-59 | every accepted part is a text of the grammar |
| `CronGrammar.PartGrammar` | src/shichimimi_agent/scheduler/cron.py:28-59 | a part is accepted as a progression if and only if the grammar, which does not mention the parser, spells it with that meaning, in bounds and with a positive step |
| `CronGrammar.BeyondTheDocumentation` | src/shichimimi_agent/scheduler/cron.py:1-10 | `5/2`, `+5`, `1_0` and `0--0` are accepted, and as what |
| `CronPrinter.ItemRoundTrip` | src/shichimimi_agent/scheduler/cron.py:28-59 | a printed value, range or star with or without step is read back as what it stands for, and refused exactly when out of range or with step 0 |
| `CronPrinter.FieldRoundTrip` | src/shichimimi_agent/scheduler/cron.py:26-66 | printing any list of items and parsing gives the union of what they stand for; refused exactly when some item is improper |
| `CronPrinter.ListRoundTrip` | src/shichimimi_agent/scheduler/cron.py:26-66 | any nonempty in-range set, printed as a comma list in any order, parses back to itself |
| `Cron.ParsedIsSound` | src/shichimimi_agent/scheduler/cron.py:80-104 | every parsed schedule has nonempty in-range sets, and full day sets where a day field is `*`, with 7 folded to 0 |
| `Cron.WordsFirst` | src/shichimimi_agent/scheduler/cron.py:81-82 | splitting an expression: a word goes up to the next white space of any kind, whatever follows |
| `Cron.WordsSkip` | src/shichimimi_agent/scheduler/cron.py:81-82 | and white space before a word is skipped |
| `Cron.ParseOutcome` | src/shichimimi_agent/scheduler/cron.py:81-104 | refused for its number of fields exactly if that is not five, otherwise with the error of the first field that is refused, and accepted if none is |
| `Cron.DayRule` | src/shichimimi_agent/scheduler/cron.py:106-119 | the AND/OR test is: every day if both day fields are `*`, the restricted one if one is, either if both are |
| `Cron.MatchRule` | src/shichimimi_agent/scheduler/cron.py:106-119 | an accepted expression matches day, hour and minute exactly if the minute is in the first field's values, the hour in the second's, and the day rule of the other three holds |
| `Cron.ExpressionRoundTrip` | src/shichimimi_agent/scheduler/cron.py:81-104 | five printed fields joined by spaces split back into those fields, are accepted exactly when every item fits its field, and then each of the five sets holds exactly what the items of its own field stand for, with 7 read as Sunday |
| `Cron.PrintedMatches` | src/shichimimi_agent/scheduler/cron.py:80-119 | a printed expression matches exactly at the minutes, hours and days its own items stand for |
| `Cron.NextAfter` | src/shichimimi_agent/scheduler/cron.py:121-128 | the least whole minute strictly after dt, at most dt + 366 days, that matches; raises exactly when there is none; terminates |
| `CronCap.CapSuffices` | src/shichimimi_agent/scheduler/cron.py:121-128 | from every start the search succeeds for schedules that match by weekday or have a date of every year |
| `CronCap.CapTheorem` | src/shichimimi_agent/scheduler/cron.py:106-128 | the search never raises, whatever the start, if and only if the schedule is of that kind |
| `CronCap.CapTheoremParsed` | src/shichimimi_agent/scheduler/cron.py:80-128 | the same for every expression the parser accepts |
| `CronCap.OutsideTheCap` | src/shichimimi_agent/scheduler/cron.py:121-128 | other schedules raise from some start, and from every start exactly when they do not allow 29 February |
| `CronCap.CapIsTight` | src/shichimimi_agent/scheduler/cron.py:122-124 | for every leap year there is a start from which the first match is exactly 366 days later |
| `CronLeapDay.LeapDayAhead` | src/shichimimi_agent/scheduler/cron.py:121-128 | a 29 February at most 366 days ahead is that of this year or the next, and from which dates it is so near |
| `CronLeapDay.LeapDayStarts` | src/shichimimi_agent/scheduler/cron.py:121-128 | a schedule that can match on 29 February only raises from exactly the starts outside a stated condition on year, date and time of day: before 29 February of a leap year or on it with a time still to come, from 1 March before a leap year, or on 28 February before one with a time already past |
| `CronExpressions.MidnightParses` | src/shichimimi_agent/scheduler/cron.py:80-104 | every `0 0 D M *` with day and month in range parses to midnight of that date |
| `CronExpressions.MarchFirstParses` | src/shichimimi_agent/scheduler/cron.py:80-104 | `0 0 1 3 *` is the schedule that shows the tightness |
| `CronExpressions.LeapDayExpression` | src/shichimimi_agent/scheduler/cron.py:80-128 | `0 0 29 2 *` parses, is outside the cap theorem, and searched from 1 January raises in exactly the years that are not leap |
| `CronExpressions.NeverExpression` | src/shichimimi_agent/scheduler/cron.py:80-128 | `0 0 30 2 *` parses and raises from every start |
| `Scheduler.Dispatch` | src/shichimimi_agent/scheduler/engine.py:187-224 | the retry loop stops at the first success or the last allowed attempt, reports it, and calls the executor once for each attempt reported |
| `Scheduler.DispatchMeaning` | src/shichimimi_agent/scheduler/engine.py:187-224 | with a configured limit b: b + 1 attempts are allowed, or one if b is negative; succeeded exactly when one of them returns, and all before the reported one failed; failed after exactly that many with the last error; without an executor skipped, and with a limit that is no number failed, both without an attempt |
| `Scheduler.Engine.RunJob` | src/shichimimi_agent/scheduler/engine.py:149-171 | match, same-minute guard under forbid, recording of the firing before dispatch, the failed result for an unexpected raise, and the executor calls behind the result |
| `Scheduler.Engine.RunPending` | src/shichimimi_agent/scheduler/engine.py:132-185 | results, notifier calls, executor calls and last firings of a pass in job order, ended by a notifier that raises |
| `SchedulerRuns.PassIsIndependent` | src/shichimimi_agent/scheduler/engine.py:132-171 | with unique names, each job's result is computed from its state before the pass and its own executor alone |
| `SchedulerRuns.OutcomeDependsOnOwn` | src/shichimimi_agent/scheduler/engine.py:149-171 | two passes that agree on one job's last firing and executor give it the same outcome however else they differ |
| `SchedulerRuns.CallsAreTerminal` | src/shichimimi_agent/scheduler/engine.py:136-185 | in a pass the notifier hears exactly the succeeded and failed results, once each, in order |
| `SchedulerRuns.TerminalOnlyMeaning` | src/shichimimi_agent/scheduler/engine.py:173-185 | those are all results with status succeeded or failed, in their order |
| `SchedulerRuns.RaiseCutsShort` | src/shichimimi_agent/scheduler/engine.py:136-147 | a raising notifier only cuts a pass short: its results are a beginning of those without it |
| `SchedulerRuns.LastIsLatestDue` | src/shichimimi_agent/scheduler/engine.py:156-168 | over any run, raising notifiers included, the recorded firing of a job is the minute of the latest pass that came to it and that its cron matched |
| `SchedulerRuns.ResultMeaning` | src/shichimimi_agent/scheduler/engine.py:156-171 | a job has a result exactly if its cron matches: "already fired this minute" if it did under forbid, and that of its dispatch otherwise |
| `SchedulerRuns.PassDispatches` | src/shichimimi_agent/scheduler/engine.py:132-171 | counted in the results after any number of jobs of a pass: a job is dispatched, once, exactly if the pass came to it and the guard lets it; then its firing is recorded and its executor called until it first returns or b + 1 times |
| `SchedulerRuns.AbortedIffEnded` | src/shichimimi_agent/scheduler/engine.py:136-147 | a pass is cut short before a job exactly if an earlier job's own result is one the notifier hears and raises on |
| `SchedulerRuns.DispatchedIffReached` | src/shichimimi_agent/scheduler/engine.py:132-185 | under any notifier a pass dispatches a job, once, if and only if no earlier job's own result makes the notifier raise, its cron matches and it did not fire in this minute under forbid |
| `SchedulerRuns.DispatchMeansFires` | src/shichimimi_agent/scheduler/engine.py:149-209 | in any pass of any run a job is dispatched, once, exactly when it is due (the pass comes to it and its cron matches) and did not fire in this minute under forbid; the executor is called exactly then, if there is one |
| `SchedulerRuns.ForbidFiresOnFirstPass` | src/shichimimi_agent/scheduler/engine.py:162-168 | when time does not run back, the results hold one dispatch of a forbid job in the first pass of each minute in which it is due, and none in any other pass |
| `SchedulerRuns.ForbidOncePerMinute` | src/shichimimi_agent/scheduler/engine.py:162-168 | added up over a whole run, a forbid job is dispatched exactly once in each minute in which some pass finds it due, and not in any other |
| `SchedulerRuns.ForbidNeverTwice` | src/shichimimi_agent/scheduler/engine.py:162-168 | in two passes of one minute a forbid job has at most one dispatch, and its executor is called in at most one of them, also when a notifier cuts passes short |
| `SchedulerRuns.DispatchedIffDue` | src/shichimimi_agent/scheduler/engine.py:149-171 | when minutes strictly increase, the results hold one dispatch of every job in each pass in which it is due and none in the others |
| `SchedulerRuns.QuietIsDue` | src/shichimimi_agent/scheduler/engine.py:136-147 | under a notifier that does not raise, a job is due in exactly the passes its cron matches |
| `SchedulerRuns.RunCallsAreTerminal` | src/shichimimi_agent/scheduler/engine.py:173-185 | over any run the notifier's calls are exactly the succeeded and failed results, once each, in order |
| `SchedulerRuns.WakeStep` | src/shichimimi_agent/scheduler/engine.py:249-258 | a pass begins as long after the next full minute as the one before it took, so it lands on the previous minute plus one plus the whole minutes that took |
| `SchedulerRuns.WokenOrSkipped` | src/shichimimi_agent/scheduler/engine.py:249-258 | every minute of a run belongs to one turn of the loop, and is woken by some turn exactly when its own begins in it; otherwise that turn's pass takes a minute or more |
| `SchedulerRuns.NeverWokenBetween` | src/shichimimi_agent/scheduler/engine.py:249-258 | no turn at all wakes on a minute strictly between two neighbouring wakes |
| `SchedulerRuns.LoopDispatches` | src/shichimimi_agent/scheduler/engine.py:249-258 | in the resident loop no minute has two passes, and a job is dispatched once in each pass in which it is due and in no other |
| `SchedulerRuns.EveryMatchedMinuteFires` | src/shichimimi_agent/scheduler/engine.py:249-258 | if passes stay under a minute, each matched minute of the run has exactly one pass, which dispatches the job, once, and calls its executor, exactly if it comes to the job, and always if the notifier does not raise |
| `SchedulerRuns.LongPassSkips` | src/shichimimi_agent/scheduler/engine.py:249-258 | the minutes after a pass begins, as many as it takes whole minutes, are never woken |
| `SchedulerRuns.RunForever` | src/shichimimi_agent/scheduler/engine.py:249-258 | the loop's first n turns on a fresh engine reach the clock, firings, notifier calls and executor calls that the theorems speak of |
| `DeadlineRace.StepKeepsInv` | src/shichimimi_agent/scheduler/engine.py:226-244 | every step of engine and workers keeps: each box holds its own executor's error and nothing else, every settled attempt but the last failed, a worker found dead stays so |
| `DeadlineRace.AttemptsAreBounded` | src/shichimimi_agent/scheduler/engine.py:198-209 | in every interleaving at most the allowed attempts are started, one after the other, each only after the one before it failed |
| `DeadlineRace.LivenessDecides` | src/shichimimi_agent/scheduler/engine.py:226-244 | in every interleaving, if a step is the liveness check of an attempt, the attempt's verdict, whenever it comes, is its worker's own outcome if the worker was dead at that step, and "deadline exceeded", put down by that step, if not |
| `DeadlineRace.VerdictMeaning` | src/shichimimi_agent/scheduler/engine.py:226-244 | every settled attempt went through such a check, so each verdict is of one of the two kinds |
| `DeadlineRace.LateWorkerDoesNotMatter` | src/shichimimi_agent/scheduler/engine.py:228-241 | once an attempt is settled, a run with all further steps of its worker left out can be made as well, and ends with the same verdicts, engine state and other workers |
| `DeadlineRace.VerdictsStay` | src/shichimimi_agent/scheduler/engine.py:226-244 | no later step takes back a verdict |
| `DeadlineRace.EngineMoves` | src/shichimimi_agent/scheduler/engine.py:226-244 | in every reachable state of an unfinished race the engine can make a step, whatever the workers do |
| `DeadlineRace.EngineStepsAreBounded` | src/shichimimi_agent/scheduler/engine.py:193-244 | no interleaving has more than four engine steps for each allowed attempt |
| `DeadlineRace.EngineFinishes` | src/shichimimi_agent/scheduler/engine.py:193-244 | every run can be finished by engine steps alone, with no more than are left of those: a hung worker never blocks the retry loop |
| `DeadlineRace.RaceIsRetryLoop` | src/shichimimi_agent/scheduler/engine.py:193-209 | a finished race made exactly the attempts of the sequential retry loop fed with its verdicts |
| `Chunker.HardSplit` | services/auth-proxy/internal/slacknotify/slacknotify.go:299-314 | the loop cuts the line into its maxLen pieces and a shorter last one |
| `Chunker.PlaceParts` | services/auth-proxy/internal/slacknotify/slacknotify.go:275-281 | full parts become chunks in order, the others go to the builder |
| `Chunker.SplitIntoChunks` | services/auth-proxy/internal/slacknotify/slacknotify.go:249-293 | the loop with its builder computes the chunk list that the theorems below are about |
| `ChunkerProof.LineParts` | services/auth-proxy/internal/slacknotify/slacknotify.go:272-314 | a line is its full parts in order followed by a rest shorter than maxLen |
| `ChunkerProof.Decomposition` | services/auth-proxy/internal/slacknotify/slacknotify.go:249-314 | the text is its chunks in order with only newlines before, between and after; a gap between chunks is empty only after a piece of maxLen runes of one line; every chunk has 1 to maxLen runes and starts with no newline; each further line in it fits, in octets before its newline plus one plus its runes; and a chunk with a newline after it ends there because the next line of the text does not fit so |
| `Utf8.EncodedRune` | services/auth-proxy/internal/slacknotify/slacknotify.go:265-269 | the width counted for a rune is the number of octets of its UTF-8 encoding, which decodes back to the rune |
| `Utf8.BytesAreOctets` | services/auth-proxy/internal/slacknotify/slacknotify.go:265-269 | and that of a text the number of octets of its encoding |
| `ChunkerProof.NeighboursFill` | services/auth-proxy/internal/slacknotify/slacknotify.go:265-290 | any two adjacent chunks hold at least maxLen octets together |
| `ChunkerProof.CountBound` | services/auth-proxy/internal/slacknotify/slacknotify.go:249-293 | at most 2 * (octets / maxLen) + 1 chunks |
| `ChunkerProof.NoChunks` | services/auth-proxy/internal/slacknotify/slacknotify.go:249-293 | no chunk exactly for texts of newlines alone |
| `ChunkerProof.JoinsBack` | services/auth-proxy/internal/slacknotify/slacknotify.go:249-293 | with no blank and no over-long line, joining the chunks by newlines gives the text back |
| `Posting.Notify` | services/auth-proxy/internal/slacknotify/slacknotify.go:159-189 | delivered messages are a beginning of the chunks of at most 3500, all of them exactly when the answer is 200, and up to the first that is refused when it is 502; 700 ms before every message but the first, bounded in total by the octets of the text |
| `SessionStore.Store.Issue` | services/auth-proxy/internal/session/session.go:99-105 | the entry with its expiry and an unused counter |
| `SessionStore.Store.Resolve` | services/auth-proxy/internal/session/session.go:119-131 | role of a live token, and removal of an expired one |
| `SessionStore.Store.Valid` | services/auth-proxy/internal/session/session.go:136-139 | whether the token is live, with the same removal |
| `SessionStore.Store.Charge` | services/auth-proxy/internal/session/session.go:144-157 | counts a live token's call and compares with the cap; removes an expired one |
| `SessionStore.Store.Sweep` | services/auth-proxy/internal/session/session.go:86-95 | the loop over the entries leaves exactly those not expired at the time read |
| `SessionStore.Store.Apply` | services/auth-proxy/internal/session/session.go:86-157 | one call of any of the methods is the step that the theorems about runs speak of |
| `SessionStore.SweepClears` | services/auth-proxy/internal/session/session.go:86-95 | after a sweep no entry is left that was expired at the time it read, and all others are as they were |
| `SessionStore.LazyDrop` | services/auth-proxy/internal/session/session.go:119-157 | resolving or charging a token drops its entry exactly if it is expired, and touches no other |
| `SessionStore.StoreRefinesLedger` | services/auth-proxy/internal/session/session.go:86-157 | on every run with a monotone clock and fresh tokens, sweeps with an old clock value included, the store answers every call as a ledger that never deletes |
| `SessionStore.ResolveMeaning` | services/auth-proxy/internal/session/session.go:97-131 | Resolve returns a role exactly when the token was issued for it and now is not after issue time plus lifetime |
| `SessionStore.ChargeMeaning` | services/auth-proxy/internal/session/session.go:141-157 | Charge says yes exactly when the token is live and fewer than cap charges were made since it was issued |
| `SessionStore.ChargeUnissued` | services/auth-proxy/internal/session/session.go:147-150 | a token not issued before is refused |
| `Text.FirstHit` | services/auth-proxy/internal/policy/policy.go:151-160 | the scan of a pattern list stops at the first pattern that matches |
| `Policy.DecideMeaning` | services/auth-proxy/internal/policy/policy.go:146-162 | allowed exactly for a known role with no matching deny pattern and some matching allow pattern; unknown exactly for other roles; denied by a pattern exactly if it is the first deny pattern that matches |
| `McpGate.ToolsForRole` | services/auth-proxy/internal/xmcp/xmcp.go:252-270 | everything for the static token, otherwise the permitted tools in table order, and none without an engine |
| `McpGate.PermittedInOrder` | services/auth-proxy/internal/xmcp/xmcp.go:252-270 | the permitted tools are listed all of them, once for each time they stand in the table, and in its order |
| `McpGate.HasToolIsListed` | services/auth-proxy/internal/xmcp/xmcp.go:239-278 | the routing test knows exactly the tools of the full list: the four X tools if they are included, then the extras |
| `McpGate.StepKeepsInv` | services/auth-proxy/internal/xmcp/xmcp.go:340-457 | minting, sweeping, time and every request step keep roles, permissions and the budget account |
| `McpGate.RunKeepsInv` | services/auth-proxy/internal/xmcp/xmcp.go:340-457 | the same over every interleaving from the start |
| `McpGate.CapHolds` | services/auth-proxy/internal/xmcp/xmcp.go:432-452 | over every interleaving, calls made or cleared for one minted token never exceed the cap |
| `McpGate.OnlyChargesSpend` | services/auth-proxy/internal/xmcp/xmcp.go:432-452 | the counter equals the number of requests that reached the charge with a live token |
| `McpGate.RefusedSpendsNothing` | services/auth-proxy/internal/xmcp/xmcp.go:416-452 | a check ends as unknown exactly for tools that do not exist and as not permitted exactly for those not shown, and then leaves store and ledger as they were; otherwise it raises its own token's counter by one exactly while the token is unexpired, and no other |
| `McpGate.LedgerIsMinted` | services/auth-proxy/internal/xmcp/xmcp.go:340-356 | a token is known exactly if some step of the run minted it, with the role of that mint and the configured lifetime from it |
| `McpGate.DispatchIsShown` | services/auth-proxy/internal/xmcp/xmcp.go:248-278 | a dispatched request has the role its token was minted for and a tool that `tools/list` shows that role |
| `McpGate.LiveIsAuthorized` | services/auth-proxy/internal/xmcp/xmcp.go:340-356 | a token other than the static one is authorised, with its minted role, exactly when it was minted and has not expired |
| `McpGate.StaticTokenPasses` | services/auth-proxy/internal/xmcp/xmcp.go:346-454 | in every run a request with the static token is authorised without a role and cleared for exactly the tools that exist, and neither step touches store or ledger |
| `McpGate.ShownIsCleared` | services/auth-proxy/internal/xmcp/xmcp.go:407-454 | an authorised request is cleared if and only if its tool is shown, its token unexpired and budget left |
| `Redaction.Redact` | services/auth-proxy/internal/xmcp/xmcp.go:83-89 | the loop applies every pattern's replacement in table order |
| `Redaction.Find` | src/shichimimi_agent/hooks/redaction.py:23-28 | the names of the patterns found, in table order |
| `Redaction.FindingsMeaning` | src/shichimimi_agent/hooks/redaction.py:23-28 | they are the names of exactly the patterns that match somewhere, once each, in table order |
| `Redaction.SearchFinds` | src/shichimimi_agent/hooks/redaction.py:26-27 | the left-to-right search succeeds exactly when some stretch of the text is a match |
| `Redaction.NothingFound` | src/shichimimi_agent/hooks/redaction.py:23-28 | nothing is found exactly in texts in normal form |
| `Redaction.NormalForm` | services/auth-proxy/internal/xmcp/xmcp.go:83-89 | for every table whose patterns match no bracket and nothing inside their own or a later marker, no pattern matches anywhere in the output, inside and across markers included |
| `Redaction.RedactionIsNormalisation` | src/shichimimi_agent/hooks/redaction.py:23-34 | redacting twice is redacting once; nothing is found afterwards; exactly the texts with nothing to find stay as they are |
| `Redaction.ReplacementIsExact` | services/auth-proxy/internal/xmcp/xmcp.go:83-89 | a pass keeps the text between the words it replaces, in which no match starts, not even one that runs past it, and puts one marker for each word; each word is the match the pattern prefers at its start, the longest where it has no preference |
| `Redaction.OnlyReplacement` | services/auth-proxy/internal/xmcp/xmcp.go:83-89 | there is only one such output, the one computed |
| `RedactionLaw.RedactFramed` | src/shichimimi_agent/hooks/redaction.py:30-34 | patterns that match no bracket work on the text before, inside and after a marker separately |
| `RedactionLaw.LayText` | src/shichimimi_agent/hooks/redaction.py:30-34 | after every pass the text is stretches of the original that no pattern so far matches, in turn with markers as the passes after theirs left them |
| `RedactionLaw.TableLaw` | src/shichimimi_agent/hooks/redaction.py:14-34 | a configured table of bracket-free patterns leaves a normal form of every text if and only if no pattern of the table matches in the marker, as later passes leave it, of a pattern that can fire |
| `RedactionLaw.FiresIff` | src/shichimimi_agent/hooks/redaction.py:14-34 | a pattern can fire exactly if it has a word that the patterns before it leave alone, or matches in the marker of an earlier one that can fire |
| `Redaction.ValueNormalForm` | src/shichimimi_agent/hooks/redaction.py:36-43 | a redacted value keeps its shape and keys, every string below it is in normal form, and exactly the values that were so already are left as they are |
| `Redaction.RedactedBelow` | src/shichimimi_agent/hooks/redaction.py:36-43 | at every path below a value, a string is replaced by its own redaction, anything that is no string, list or dictionary is as it was, and no place is added or lost |
| `RedactionTable.DefaultTableIsSealed` | services/auth-proxy/internal/xmcp/xmcp.go:55-81 | none of the five shipped patterns matches a bracket or anything inside a marker |
| `RedactionTable.DefaultTableIsBlind` | services/auth-proxy/internal/xmcp/xmcp.go:55-81 | nor anything in the marker of an earlier pattern |
| `RedactionTable.ShippedRedaction` | services/auth-proxy/internal/xmcp/xmcp.go:55-89 | any text redacted with the shipped table, with the white space and case folding of either engine, is in normal form, and redacting it again changes nothing |
| `RedactionTable.SpelledWordsMatch` | services/auth-proxy/internal/xmcp/xmcp.go:55-81 | each pattern's word set holds every word its expression spells |
| `RedactionWords.ClassesSpelledOut` | services/auth-proxy/internal/xmcp/xmcp.go:55-81 | the character classes of the expressions, by code point |
| `RedactionWords.EnginesSpelledOut` | src/shichimimi_agent/hooks/redaction.py:14-21 | by code point, what each engine takes for white space and for the letters of the keywords |
| `RedactionWords.KeywordsSpelledOut` | services/auth-proxy/internal/xmcp/xmcp.go:59-60 | the keywords are the six words the alternation spells, up to the engine's case folding |
| `RedactionWords.EnvIsSpelled` | services/auth-proxy/internal/xmcp/xmcp.go:59-60 | the first word set holds only a keyword, white space and an equals sign |
| `RedactionWords.PrivateKeyIsSpelled` | services/auth-proxy/internal/xmcp/xmcp.go:63-65 | the second only the frame around capitals and spaces |
| `RedactionWords.BearerIsSpelled` | services/auth-proxy/internal/xmcp/xmcp.go:68-70 | the third only Bearer, white space, a body and equals signs |
| `RedactionWords.PrefixedIsSpelled` | services/auth-proxy/internal/xmcp/xmcp.go:72-80 | the last two only their prefix and a body |
| `RedactionWords.ShippedWholeWord` | services/auth-proxy/internal/xmcp/xmcp.go:83-89 | a text that is one word of a shipped pattern, and in which no earlier pattern matches, becomes exactly that pattern's marker |
| `RedactionWords.SecretsGoWhole` | services/auth-proxy/internal/xmcp/xmcp.go:66-89 | "sk-ant-" and any body becomes exactly its marker; so do session tokens unless such a key stands in them, and Bearer tokens unless an earlier pattern matches in them |
| `RedactionParity.WordParity` | services/auth-proxy/internal/xmcp/xmcp.go:50-81 | for every word and each of the five patterns: Go's accepts it if and only if Python's does and it has no white space beyond Go's and no dotted capital or dotless small i |
| `RedactionParity.TableParity` | services/auth-proxy/internal/xmcp/xmcp.go:50-89 | for every table ported so, every text and any number of passes: the outputs are equal if and only if no pass of Python's replaces a word with such a character, if and only if Python's output has as many of them as the text |
| `RedactionParity.EnginesAgreeIff` | services/auth-proxy/internal/xmcp/xmcp.go:50-89 | for every text, the two shipped redactors agree if and only if no assignment word that only Python accepts stands in it and the scan for Bearer words, on what the first two passes leave, takes none with such a character |
| `RedactionParity.WordFreeAgree` | services/auth-proxy/internal/xmcp/xmcp.go:50-89 | they agree on every text in which no word stands that only Python accepts |
| `RedactionParity.AlikeAgree` | tests/test_redaction_parity.py:1-5 | they agree on every text of characters that both engines treat alike |
| `RedactionParity.BearerWordDiffers` | services/auth-proxy/internal/xmcp/xmcp.go:66-70 | they differ on every Bearer word that only Python accepts, unless an earlier pass has something to replace in it |
| `RedactionParity.EnginesDiffer` | src/shichimimi_agent/hooks/redaction.py:14-21 | such words exist: by a dotless i, and by a no-break space before an equals sign and after Bearer |
| `RedactionHiddenWord.HiddenWordAgrees` | services/auth-proxy/internal/xmcp/xmcp.go:55-89 | and one on which the redactors agree all the same, because the assignment pass breaks it up |
| `TokenCache.TokenSource.CheckSection` | services/auth-proxy/internal/jquants/jquants.go:71-78 | the cached token if more than the margin is left, otherwise none |
| `TokenCache.TokenSource.StoreSection` | services/auth-proxy/internal/jquants/jquants.go:109-112 | token and expiry stored together, the expiry assumed from now or as the server stated it |
| `TokenCache.TokenSource.Perform` | services/auth-proxy/internal/jquants/jquants.go:71-115 | a step of the protocol made with the object's two sections is the step that the theorems speak of, cache and served token included |
| `TokenCache.CacheIsLastStore` | services/auth-proxy/internal/githubapp/githubapp.go:203-260 | under every interleaving of callers there are a step that is a mint's answer and a later step that stores it, the last store of all, such that the cache holds that answer's token with the expiry it stated, or with the assumed lifetime from its storing; the cache is empty exactly if nothing was stored |
| `TokenCache.ServedIsFresh` | services/auth-proxy/internal/githubapp/githubapp.go:203-210 | a token served from the cache is the answer of the mint stored last before the check, and the expiry that mint stated, or assumed from its storing, was more than the margin away |
| `TokenCache.GitHubMargin` | services/auth-proxy/internal/githubapp/githubapp.go:203-210 | a GitHub token from the cache had over 5 minutes left until the time its mint stated |
| `TokenCache.JQuantsMargin` | services/auth-proxy/internal/jquants/jquants.go:21-78 | a J-Quants token from the cache was stored less than 22.5 hours before the check |
| `TokenCache.GitHubServed` | services/auth-proxy/internal/githubapp/githubapp.go:203-210 | a GitHub token is served from the cache if and only if the mint stored last stated a time more than 300 s after the check |
| `TokenCache.JQuantsServed` | services/auth-proxy/internal/jquants/jquants.go:21-78 | a J-Quants token is served from the cache if and only if one was stored less than 81000 s before the check |
| `TokenCache.OneOrigin` | services/auth-proxy/internal/githubapp/githubapp.go:203-260 | the mint and the store behind the cache are one pair of steps only, as no caller mints twice |
| `TokenCache.ServedIffFresh` | services/auth-proxy/internal/githubapp/githubapp.go:203-210 | for a stated as for an assumed expiry, a check is answered from the cache if and only if the mint stored last before it has an expiry more than the margin after the check; otherwise the caller mints |
| `TokenCache.NoNeedlessMint` | services/auth-proxy/internal/githubapp/githubapp.go:203-260 | if stored tokens last at least some time from their storing, a check that goes on to mint comes no sooner than that time less the margin after every store before it |
| `TokenCache.NoMintWhileFresh` | services/auth-proxy/internal/jquants/jquants.go:71-115 | with an assumed lifetime, a check is answered from the cache if and only if some caller stored a token less than lifetime minus margin before it |
| `Collector.Repository.ExistingUrls` | src/shichimimi_agent/runner/collect_x.py:42-49 | the nested loops gather exactly the URLs of all rows |
| `Collector.Repository.Collect` | src/shichimimi_agent/runner/collect_x.py:126-156 | rows written are those of the posts handled, up to the first post that raises before it is looked at, or is new and raises before its row is written |
| `Collector.Repository.CollectAll` | src/shichimimi_agent/cli.py:182-188 | the job's loop over its queries leaves the queue of the queries done and the posts handled of the one that raised |
| `Collector.InsertedUrls` | src/shichimimi_agent/runner/collect_x.py:126-156 | a success leaves exactly the old URLs and the nonempty ones of the posts |
| `Collector.InsertedRows` | src/shichimimi_agent/runner/collect_x.py:126-156 | a success keeps the old rows and appends one for each new URL, for the first post with it, in the order of the posts |
| `Collector.InsertKeepsDistinct` | src/shichimimi_agent/runner/collect_x.py:131-156 | every added row, the first of a queue included, holds one nonempty URL found in no row before it, and old rows stay |
| `Collector.QueueStaysDistinct` | src/shichimimi_agent/runner/collect_x.py:126-156 | from an empty queue, after any run of collections every row holds exactly one nonempty URL, and no two rows the same |
| `Collector.FailedAttemptIsAbsorbed` | src/shichimimi_agent/runner/collect_x.py:126-160 | an attempt that got part of the way changes nothing about a full run after it |
| `Collector.RetriesConverge` | src/shichimimi_agent/scheduler/engine.py:198-209 | any number of attempts failing anywhere, then a success, leave the queue one clean run would, rows and order included |
| `Collector.QueriesAreOneRun` | src/shichimimi_agent/cli.py:182-188 | one collection per query is one collection over all their posts |
| `Collector.JobRetriesConverge` | src/shichimimi_agent/cli.py:182-188 | any number of attempts of the whole job, stopped inside any query or between two, then a success, leave the queue one clean run of the job would |
| `PathPolicy.StackFollowsWalk` | src/shichimimi_agent/security/path_policy.py:14-15 | the normalised stack is `..`s followed by names, starts with `..` exactly when the walk has dipped above the root, and before that is as high as the depth |
| `PathPolicy.StackHoldsLastNames` | src/shichimimi_agent/security/path_policy.py:14-15 | on a path that does not dip, entry d of the stack is the name by which the walk last went from depth d to d + 1, which no later `..` cancels |
| `PathPolicy.NormalizedNames` | src/shichimimi_agent/security/path_policy.py:14-15 | the normalised text is those names joined by slashes, or a dot |
| `PathPolicy.TestsSeeStack` | src/shichimimi_agent/security/path_policy.py:22-24 | the three string tests hold exactly when the normalised path starts with a `..` component |
| `PathPolicy.EscapesIffDips` | src/shichimimi_agent/security/path_policy.py:18-24 | turned away as escaping exactly when it starts with a slash or backslash or its walk stands above the root after some beginning |
| `PathPolicy.RStripMeaning` | src/shichimimi_agent/security/path_policy.py:27 | the comparison with a pattern takes off exactly the slashes and stars at its end |
| `PathPolicy.AllowedMeaning` | src/shichimimi_agent/security/path_policy.py:18-34 | allowed exactly when it does not escape, no deny pattern and some allow pattern covers it; otherwise with the reason, naming the first deny pattern that covers it |
| `JobPolling.WaitForCompletion` | src/shichimimi_agent/runner/k8s_api_client.py:90-112 | requests are made with the poll interval between them until one has a verdict, by what it reads or by the deadline, and that is the answer; it comes by deadline plus poll interval plus one request; reports only statuses the Job showed, and a failed request exactly if the last one broke |
| `JobPolling.FinalIsSeen` | src/shichimimi_agent/runner/k8s_api_client.py:90-112 | such a wait never ends by its own timeout if the Job comes to show its final status by the deadline less the longest request and for one sleep and two requests, after which it may be reaped; one shown from the start is what it ends with unless a request breaks |
| `JobPolling.LaunchAndWait` | src/shichimimi_agent/runner/k8s_claude_launcher.py:246-253 | whatever the longest request, a Job that comes to show its final status by its own deadline plus 60 s less that request, and for one sleep and two requests, is never reported as a timeout of the wait |

## Left out

- Dates beyond year 9999: the calendar goes on, where `datetime` raises OverflowError.
- Decimal digits other than 0 to 9 in cron fields, which Python's `int` would also read.
- Cron error texts: the model keeps the kind of error and not its message.
- RedactionLaw.TableLaw: expressions that match the empty word, look at their surroundings (anchors, word boundaries,
  look-around) or match a bracket are left out, and so are names with a character special to the replacement template.
- Regular-expression, `fnmatch`, `path.Match` and `posixpath.normpath` internals: the patterns are sets of words, globs are
  parameters, and normalisation is its stack form for relative paths.
- Posting.Notify: the length limit of the request body, JSON decoding, the choice of channel and the HTTP call are left
  out; an accepted message is a parameter.
- Chunker.SplitIntoChunks: a maxLen of zero is left out, because hardSplit would then not end; the one caller passes 3500.
- JobPolling.WaitForCompletion: a poll interval of zero together with requests that take no time is left out, because the
  loop then need not end.
- A handler without a session store, and tokens minted with an empty role, which the minting endpoint refuses.
- Randomness of minted tokens: they are taken to be fresh and to differ from the static token.
- Clocks that run back, duplicate job names, several collectors at once, executor exceptions outside `Exception`.
- Scheduler durations and log lines; loading and validating the schedule configuration.
- SchedulerRuns.RunForever: states the first n turns, for every n, of a loop that has no end; sleeping is exact.
- The installation-id cache of the GitHub source, JWT signing and HTTP in both token sources.
- Fields of queue rows other than their URLs, SQLite, and searches that answer a retried query with other posts.
- Reverse proxies, egress filtering, CLI, prompts, Markdown, container and cluster manifests: plumbing or single checks.

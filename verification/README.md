# Pomodoro bot — a Dafny model of its timer core

The bot runs Pomodoro sessions for Telegram users. A user starts a *full
cycle*: work phases ("pomodoros") alternate with breaks. Every fourth break
is a long one. The cycle runs until the user presses *Stop*. Each finished
phase adds one to the user's lifetime statistics. Each user can set the three
interval lengths in whole minutes. The settings can only be opened while
the user has nothing running. Two registries, from user to running task,
enforce "one run per user": one for stand-alone timers and one for cycles.

The model has seven modules:

- `Basics` (basics.dfy) — `Option`, and the `Build` switch between the code
  as written and the corrected behaviour described under "Findings".
- `UserState` (user_state.dfy) — the per-user statistics and interval
  records, created lazily with their defaults on first access. Also the stats
  update at the end of a countdown with its completion notice, the validation
  of a typed-in interval, and the work-time line of the statistics view.
- `TimeFormat` (time_format.dfy) — `format_time`: "N сек" below a minute,
  otherwise "MM:SS". Its partner is a parser that reads both forms back.
- `Countdown` (countdown.dfy) — the countdown loop of `run_timer`, as a
  method over abstract one-second sleeps. An optional cancellation point
  stands for the task being cancelled during a sleep.
- `CycleScheduler` (cycle.dfy) — the loop of `run_full_cycle` as a step
  machine. Each step is the end of the phase in progress. Either the phase
  ran to its end and the loop checks the cycle registry, or a cancellation
  is delivered.
- `Sessions` (sessions.dfy) — the two registries: the start check and
  registration, the stop, and the removal a cycle task does on its way out.
- `Handlers` (handlers.dfy) — the whole bot driven by one request at a
  time. It covers the start, stop, settings, typed-minutes, back and
  statistics buttons, plus the end of a phase of a running cycle task. It
  includes the registry/runs invariant that the corrected build keeps, and
  concrete request sequences that show where the code as written departs
  from it.

In these places the code behaves differently from what its messages and
comments suggest; the model follows the code:

- The stop message reports `pomodoro_count`, which includes a work phase
  that was interrupted (main.py:207, 268-274).
- When the loop leaves through the registry check, it sends no report: the
  check at main.py:260 cannot hold there. The model ends such a cycle with
  `Stopped(None)`.
- A cancelled cycle task removes the registry entry of its *user*, whatever
  task that entry belongs to (main.py:275-276). The removal is not
  restricted to the task's own entry.
- Nothing in the code inserts into the stand-alone timer registry. The model
  keeps that registry, reads it in every busy check, removes the user's
  entry on a stop, and removes it again in `FinishTimer`. No request
  starts a stand-alone timer.

## Model

| member | source | states |
|---|---|---|
| `UserState.KindOf` | main.py:154-159 | "pomodoro" and "short_break" pick their own counters; every other interval-type string counts as a long break |
| `UserState.RecordCompletion` | main.py:153-159 | the counter of the finished kind rises by exactly one, the other two are unchanged, and the total rises by one |
| `UserState.CompletionNotice` | main.py:162-168 | a finished pomodoro reports the lifetime pomodoro count and recommends a long break exactly when that count is a multiple of four; a finished break gets only the invitation to continue |
| `UserState.LongBreakHintFollowsLifetimeCount` | main.py:153-166 | after n further pomodoros only the pomodoro counter has moved (by n), and the hint follows the lifetime total, not the count within the run |
| `UserState.GetStats` | main.py:44-48 | an existing record is returned and the store is unchanged; otherwise zeroed counters are stored for the user and returned; intervals are untouched |
| `UserState.GetIntervals` | main.py:51-59 | an existing record is returned unchanged; otherwise 1500/300/900 seconds are stored and returned; every stored record stays a positive number of whole minutes |
| `UserState.AccessIsStable` | main.py:44-59 | a second access returns the record the first one stored and changes nothing more |
| `UserState.WithDuration` | main.py:455 | the chosen interval takes the new value and the other two keep theirs |
| `UserState.MinutesRoundTrip` | main.py:455-457 | a value stored as minutes times sixty reads back in the menus as the same number of minutes |
| `UserState.Complete` | main.py:152-168 | the user's record receives exactly that completion, every other user's statistics and all intervals are unchanged, and the notice is built from the updated record |
| `UserState.SubmitMinutes` | main.py:446-462 | a non-number and a non-positive value are rejected (each iff its condition holds) and change nothing; an accepted value sets exactly the chosen interval of exactly this user to minutes times sixty and keeps the store's settings positive whole minutes |
| `UserState.WorkTime` | main.py:575-577 | the work-time line is present iff at least one pomodoro was completed, and is then at least one current pomodoro duration |
| `UserState.WorkTimeAddsOnePomodoro` | main.py:575-577 | each further completed pomodoro adds exactly one current pomodoro duration to the shown total, starting from none, and a completed break changes nothing; so the total is the count times the pomodoro duration |
| `TimeFormat.IntText` | main.py:65 | Python's str() of an integer: its magnitude's digits without a superfluous leading zero, after a minus sign exactly when it is negative |
| `TimeFormat.Clock` | main.py:66-68 | the text is the minutes as the ":02d" field writes them (exactly two digits below 100, otherwise no leading zero), a colon and two digits of seconds, reading back as seconds/60 and seconds%60 |
| `TimeFormat.FormatTime` | main.py:62-68 | the text ends in " сек" iff the duration is below a minute; otherwise it is a clock text with a ":02d" minutes field whose fields recombine to the duration |
| `TimeFormat.FormatTimeRoundTrip` | main.py:62-68 | parsing a formatted duration gives back the same number of seconds, for every integer including negative ones |
| `TimeFormat.FormatTimeInjective` | main.py:62-68 | two different durations never show the same text |
| `TimeFormat.ParsedTextIsFormatted` | main.py:62-68 | conversely, every text the strict parser reads as some duration is exactly the text the bot writes for it, so the format is pinned down character for character |
| `Countdown.RunTimer` | main.py:132-146 | completed iff no cancellation arrives before the last sleep; a full countdown shows d, d-1, …, 1 with d one-second sleeps and ends at zero; a cancelled one shows a prefix of that and stops with time left; a non-positive duration shows it once and never sleeps |
| `CycleScheduler.BreakAfter` | main.py:234-243 | the break after in-cycle pomodoro n is long iff n is a multiple of four, short otherwise |
| `CycleScheduler.Report` | main.py:264-272 | as written the stop message shows the counter of started pomodoros; either build reports a number between the completed and the started pomodoros |
| `CycleScheduler.StartWork` | main.py:207-227 | a new pomodoro raises the counter before it runs and takes the user's current pomodoro duration |
| `CycleScheduler.StartBreak` | main.py:233-253 | the break after pomodoro n is long iff n is a multiple of four and takes the user's current duration for that kind |
| `CycleScheduler.Launch` | main.py:194-195 | a new cycle has counted nothing and started nothing; the user's intervals are created if missing and statistics are untouched |
| `CycleScheduler.Step` | main.py:206-276 | a stopped cycle never changes; a failed registry check stops it without a new phase; a cancellation stops it with the report and no stats update; the user and all intervals are kept; at most one phase is started per step |
| `CycleScheduler.StepTouchesOwnStatsOnly` | main.py:153-159 | a cycle step never changes another user's statistics |
| `CycleScheduler.NothingAfterStop` | main.py:206-276 | once stopped, no sequence of further events changes the cycle or the store |
| `CycleScheduler.RunAppend` | main.py:206-257 | running two event sequences one after the other is running their concatenation |
| `CycleScheduler.DeregisteredCycleStops` | main.py:227-257 | the first registry check that finds the user gone ends the cycle, and no later event starts a phase |
| `CycleScheduler.RunReachable` | main.py:206-276 | in every reachable state the counter equals the work phases started, the stats rose by the completed ones, the break kind matches the counter, and a report equals the build's report count |
| `CycleScheduler.ReportCountsStartedWork` | main.py:268-274 | as written, the stop report equals the number of work phases the cycle started |
| `CycleScheduler.CorrectedReportCountsCompletions` | main.py:268-274 | corrected, the stop report equals the pomodoros the cycle added to the user's statistics |
| `CycleScheduler.InterruptedWorkIsReported` | main.py:268-274 | as written, stopping during the first pomodoro reports one pomodoro although none was recorded |
| `CycleScheduler.OneRound` | main.py:227-253 | an uninterrupted round from inside pomodoro n completes it, runs and completes break BreakAfter(n), and starts pomodoro n+1 |
| `CycleScheduler.UninterruptedRounds` | main.py:206-257 | after n uninterrupted rounds the cycle is in pomodoro n+1, has started exactly the work/break phases of `Rounds`, and the user gained n pomodoros, n/4 long breaks and n - n/4 short breaks |
| `Sessions.TryStartCycle` | main.py:353-379 | refused iff the user has a timer or a cycle; otherwise the user is registered with a handle no registered user holds |
| `Sessions.StopRun` | main.py:510-526 | "nothing to stop" iff the user has no run; otherwise both entries are removed and exactly their tasks are cancelled |
| `Sessions.SecondStartRefused` | main.py:353-355 | a start right after an accepted start is refused |
| `Sessions.StartAfterStop` | main.py:513-516 | deregistration on stop is immediate, so a start right after a stop is accepted |
| `Sessions.StopCancelsStartedTask` | main.py:513-516 | a stop right after an accepted start cancels exactly the started task and restores the cycle entries of everyone else |
| `Sessions.ReleaseUser` | main.py:275-276 | as written: the exit of a cancelled task removes whatever cycle entry its user has |
| `Sessions.ReleaseTask` | main.py:275-276 | corrected: the entry is removed only if it still belongs to the exiting task |
| `Sessions.ReleaseIdempotent` | main.py:275-276 | both removals, done twice, are the same as done once |
| `Sessions.ReleaseTimer` | main.py:185-187 | the end of a stand-alone timer removes only its user's timer entry |
| `Handlers.MinutesView` | main.py:359-362 | every interval appears in the menus as its duration floor-divided by sixty |
| `Handlers.BusyGuard` | main.py:353-355 | the start button and the settings buttons refuse, changing nothing, exactly when the user has a timer or a cycle registered (the same check at main.py:387-389) |
| `Handlers.OnCycleButton` | main.py:348-379 | a busy user is refused and nothing changes; otherwise exactly the user's entry is added with the next handle, a fresh cycle is launched under it, the user's intervals are created if missing, and no statistics, settings, prompts or cancellations change |
| `Handlers.OnStopButton` | main.py:505-532 | a user without a run gets "nothing to stop" and nothing changes; otherwise exactly the user's entries are removed, exactly their tasks join the pending cancellations, and nothing else changes |
| `Handlers.OnSettingsButton` | main.py:383-400 | a busy user is refused and nothing changes; otherwise the user is prompted with the current value in minutes for that interval, and statistics, settings and runs are unchanged |
| `Handlers.OnMinutesMessage` | main.py:445-462 | a user who is not prompted gets no reply; a non-number and a non-positive value are refused and the prompt stays; an accepted value sets exactly the prompted interval of that user to minutes times sixty and ends exactly that user's prompt; statistics and runs never change |
| `Handlers.OnBackButton` | main.py:536-552 | exactly this user's prompt ends and the menu is shown; statistics, settings and runs are unchanged |
| `Handlers.OnStatsButton` | main.py:556-582 | the view shows the user's counters, the settings in minutes, and the work time of `UserState.WorkTime`, present iff a pomodoro was completed; no counters or settings change |
| `Handlers.Release` | main.py:275-276 | as written the user's entry is gone whatever it held; corrected only an entry holding the exiting task is removed and every other user's and task's entry stays |
| `Handlers.DeliverCancel` | main.py:268-276 | a delivered cancellation ends the run with the build's report, no stats update, and the build's registry removal, touching no other run |
| `Handlers.AdvancePhase` | main.py:206-257 | a phase that runs to its end takes the cycle's step with the registry check's result (stats update, next phase or stop) and touches neither the registry nor any other run |
| `Handlers.OnPhaseEnd` | main.py:206-276 | a pending cancellation is delivered as in `DeliverCancel`, otherwise the phase ends as in `AdvancePhase`; other runs, settings and prompts never change |
| `Handlers.Handle` | main.py:348-582 | only a typed value changes settings, and only its sender's; only a phase end changes statistics or a running cycle, and only that task's |
| `Handlers.FinishTimer` | main.py:152-187 | the completion is recorded for the user with its notice, no other user's statistics and no settings change; outside a cycle exactly the user's timer entry is removed, inside a cycle the registry is unchanged |
| `Handlers.HandleCoherent` | main.py:206-276 | corrected: every request keeps the registry and the runs in agreement: each registered user has one live run that is not being cancelled, and each such run is registered |
| `Handlers.ReplayCoherent` | main.py:348-532 | corrected: every sequence of requests from the initial bot leaves it coherent |
| `Handlers.OneRunPerUser` | main.py:353-355 | in a coherent bot a user has at most one run that is not being cancelled, and a stop request reaches it |
| `Handlers.SettingsFrozenWhileBusy` | main.py:387-389 | corrected: while a user is registered, no request changes that user's settings |
| `Handlers.StaleReleaseDropsNewCycle` | main.py:275-276 | as written: after start, stop, start and the old task's exit, the new cycle still runs but is unregistered; stop finds nothing and a second cycle is accepted |
| `Handlers.StaleReleaseCorrected` | main.py:275-276 | corrected: the same requests leave the bot coherent |
| `Handlers.SettingsChangeWhileBusy` | main.py:445-455 | as written: a prompt opened while idle accepts a value after a cycle started, and the cycle's first pomodoro uses it; corrected, the value is refused |

## Left out

- Telegram I/O: message texts, emoji, keyboards and message ids are not modelled. Notices and replies are datatypes without wording. A failed edit that falls back to a new message (main.py:126, 178-183) is not modelled.
- The aiogram wiring: the dispatcher and its filters, the command handlers `cmd_start`, `cmd_help` and `cmd_stats` (main.py:280-345, presentation only), the environment and token set-up (main.py:12-29), and polling (main.py:585-595).
- Concurrency: requests are handled one at a time. The source awaits between the busy check and the registration (main.py:353-379), so two concurrent start requests could both pass the check. The model does not cover this.
- Cancellation of a cycle is delivered at the end of the phase in progress. A cancellation during an edit or a send is treated as one during the following sleep. The cycle's step is one whole phase and is not linked to the ticks of `Countdown.RunTimer`.
- `Countdown.RunTimer`: a cancellation of a countdown with a non-positive duration is not modelled (there is no sleep to cancel). The progress updates' message target is not modelled.
- `int()` parsing of the typed text (whitespace, signs, underscores) is not modelled. The handler receives the parsed value or `None`. A message without text makes `int()` raise `TypeError`, which the `except ValueError` at main.py:461 does not catch: the source then sends no reply, while the model answers it as a non-number.
- Telegram calls are assumed to succeed. In the source only `asyncio.CancelledError` is caught in the cycle task (main.py:268): a failing send at main.py:200, 212 or 246 ends the task with its registry entry left in place, so the user stays busy until Stop. `Handlers.HandleCoherent` and `Handlers.ReplayCoherent` hold under that assumption.
- `CycleScheduler.StartWork` reads the pomodoro duration when the phase starts; the source reads it after the phase's notice is sent (main.py:212, 227), so a value accepted while that notice is in flight is used one phase earlier in the source than in the model.
- Stand-alone timers: no request starts one. Only their end (`Handlers.FinishTimer`) and the registry checks are modelled.

## Findings

| source | as written | input that shows it | evidently intended | confidence | as-written member | corrected member |
|---|---|---|---|---|---|---|
| main.py:275-276 | the cancelled cycle task deletes its user's registry entry, whichever task it belongs to | start, stop, start again before the old task handles its cancellation, then the old task exits | remove the entry only if it still holds this task | medium, not executed | `Handlers.StaleReleaseDropsNewCycle` | `Sessions.ReleaseTask` |
| main.py:445-462 | the typed-minutes handler has no busy check, and the prompt survives a cycle start | open the pomodoro setting, start a cycle from an older menu, type 10 | settings cannot change while a run is active, as the settings buttons promise | medium, not executed | `Handlers.SettingsChangeWhileBusy` | `Handlers.SettingsFrozenWhileBusy` |
| main.py:268-274 | the stop message reports the started pomodoros as completed | stop during the first pomodoro: the report says 1 while the statistics say 0 | report the pomodoros the cycle completed | low, not executed | `CycleScheduler.InterruptedWorkIsReported` | `CycleScheduler.CorrectedReportCountsCompletions` |

# NodePulse: a verified model of its time-driven core

NodePulse is a monitoring server with an agent on every node. This project models, in Dafny,
the parts of it whose correctness depends on time, order or arithmetic, and proves what they
promise over every run, every interleaving or every input.

* **Auto-heal.** `BreakerHistory.dfy` states the circuit breaker's promise over the complete log
  of calls of one key, with nothing purged, and bounds how many executions are allowed in any
  interval; `BreakerPace.dfy` shows that bound reached, and `BreakerBound.dfy` gives the exact length of
  the intervals that hold at most burstLimit failing ones. `BreakerGates.dfy` says on the events alone
  what makes a call wait and what opens the circuit. `CircuitBreaker.dfy` is the breaker as it runs:
  five maps, windows compacted in place on every call. At every call it takes the decision the complete
  log calls for. `Policy.dfy` has the class strategies, `Agent.dfy` the command loop that creates
  breakers, asks them, executes and records.
* **Incidents.** `IncidentTable.dfy` holds the table and its operations as state transformers,
  with a log of notification attempts and closings, and proves what every run keeps.
  `IncidentStore.dfy` is the store that updates the table in place: create, resolve, snooze,
  acknowledge, the heartbeat's incident part, the stale and fleet-wide sweeps, the silent-node
  watchdog and the janitor pass. `AlertEvaluator.dfy` is the metric-alert evaluator;
  `Interleaving.dfy` splits it at the points where it gives up its lock and lets every other
  actor run in between.
* **Rate limiter.** `RateLimiter.dfy` is the sliding window with lazy eviction, on its map of hits;
  `HitLog.dfy` says what runs of its calls promise about the plain log of allowed calls, with clock
  readings that may reach the lock late.
* **ICMP.** `Icmp.dfy` computes the Internet checksum in a 32-bit accumulator with its folding
  loop, builds echo requests and matches replies (RFC 1071, RFC 792).
* **Kernels.** `Percentile.dfy` (in-place insertion sort and nearest rank), `AuditBatches.dfy`,
  `AuditOrder.dfy` and `WebhookRecorder.dfy` (bounded audit buffer with two drainers),
  `IncidentStats.dfy` (bucket merge), `Callbacks.dfy` (sign and verify button data),
  `Billing.dfy` (paid windows under webhook retries), `Uptime.dfy` (uptime crediting and daily readers).
* `Clock.dfy`, `Options.dfy`, `Windows.dfy`, `Permutations.dfy` and `Sets.dfy` hold what several of
  these share.

Clock readings are parameters: integer nanoseconds in memory, whole unix seconds in the tables.
Readings taken inside a lock never go back. SQL tables are maps or sequences of rows, and each
statement is one atomic step. Ghost fields (`log`, `world`, `clock`, ...) remember what the
program forgets; they never influence it.

## What the proofs found

* At most burstLimit failing executions fit into an interval if and only if it is no longer than
  `BreakerBound.SafeSpan` (`BreakerBound.FailureBoundIff`). That is the shorter of two: the last
  burstLimit - 1 failures wait out the burst window and one more follows a cooldown later, or burstLimit
  failures in a row trip the breaker and one more follows the open time later. It makes 17 minutes for a
  database, 35 for a critical target and 9 for the default class (`Agent.Agent.ExpensiveTargets`), and over
  any longer span some commands of a fresh agent fail once too often (`Agent.LongerSpanExceeds`).
* A strategy's MaxAttempts, described as a cap across one burst window (pkg/policy/policy.go:44), is
  consulted by nobody: for every class some commands are executed more often within one
  (`Agent.MaxAttemptsIsNoBound`). What does bound executions is the cooldown, and that bound is reached
  (`Agent.ExecutionBoundIsReached`). The agent's loop executes commands for a critical target
  like any other, although pkg/policy/policy.go:56-58 says it never restarts without an operator.
* The evaluator stores the incident id in a later locked section than the one that decided to
  fire. If the breach it decided for is over by then and the incident is open, the id marks a key
  whose next breach, or the breach already in progress, then stays silent until a sample inside or
  a store that finds nothing. Breaches of a key are told apart by their number, not by the reading at
  which they began, which two may share. `Interleaving.OwnBreachIff` and `Interleaving.RunOwnBreachIff` say
  exactly when a key is marked for another breach, `Interleaving.StaleStoreSilences` what follows;
  `Interleaving.LateStoreSuppressesNextBreach` and `Interleaving.LateStoreSilencesBreachInProgress` are
  two such runs, the second also for a breach that begins at the very reading of the one before.
* Firing is not tied to the row: when the 30-minute sweep, or anybody else, closes the incident of a
  breach that goes on, the key stays marked and the alert is not raised again until a sample inside
  (`Interleaving.ClosedStaysSilent`, `Interleaving.SweptIsNotRaisedAgain`). The state machine at
  pkg/store/alert_evaluator.go:18-25 has only the cooldown of an open incident suppress notifications there.
* One breach can also fire twice: while its first task has not stored its id, or when the incident
  was closed before it did (`Interleaving.FiresAgainIff`, `Interleaving.TwoDecisionsFireTwice`,
  `Interleaving.ClosedRowRearms`). The incident stays one all the same (`Interleaving.EveryInterleaving`).
* "The open container incidents are the reported stopped docker services" fails for one family
  only: a name reported stopped under another service type while its incident is still young
  (`IncidentStore.StoppedDockersOnlyIff`, and `IncidentStore.OtherKindStaysOpen` for a run).
* A renewal counts thirty days from the old end even when that end is past, so paying after a
  lapse of more than thirty days leaves the end in the past. The comment at
  pkg/store/billing.go:54-57 promises a month from now in that case. `Billing.PromiseKeptIff` says
  when code and comment agree, `Billing.PaidWindowIsOpenIff` in every run when a payment buys time that
  is not over yet, and `Billing.LapsedPayerGetsNothing` gives the runs of two payments that end with none.
* Webhook audit rows have two drainers: the janitor, and the manual retry of a delivery
  (pkg/store/webhook_retry.go:71-76). A retry can persist newer rows before the janitor persists older
  ones, and a retry whose flush fails throws its batch away although the comment there promises a
  requeue. Rows are persisted in recording order iff batches commit in the order they were drained,
  as long as none is put back late (`AuditOrder.DrainOrderIff`); exactly the counted rows are lost iff
  no batch is abandoned and no requeue cut (`AuditBatches.LossesCountedIff`). Failing runs:
  `AuditOrder.RetryOvertakesJanitor`, `AuditOrder.OvertakenRequeue`, `AuditOrder.FailedRetryLosesBatch`.
* An overflowing requeue loses rows it does not count, unless there is no room at all:
  pkg/alerter/webhook_recorder.go:109-110 reslices the batch before taking its length
  (`WebhookRecorder.OverflowIsNotCounted`).
* Total and up seconds of the uptime table are always equal, so every daily bucket reads 100 per
  cent or, without any heartbeat credited, 0 (`Uptime.UptimeStore.NodeUptimeDaily`).
* Eviction in the rate limiter is safe exactly when its horizon is not shorter than the window
  (`RateLimiter.EvictionIsSafeIff`); with the default of three windows it is.
* The rate limiter reads the clock before it takes its lock, so readings may come in late. If none comes
  behind another by more than some lateness, every interval of length L holds at most limit allowed
  calls of a key, in all runs, if and only if L is at most the window less the lateness; for a limit of
  one, at most the window, whatever the lateness (`HitLog.BoundIff`). The lateness may reach the eviction
  horizon less the window, and only that of the key's own readings shortens the interval
  (`RateLimiter.RateLimiter.WindowBound`). A call whose own reading is in time is decided as the
  complete log asks for (`RateLimiter.RateLimiter.Allow`).
* A 32-bit sum suffices for exactly the buffers of up to 131074 bytes
  (`Icmp.ThirtyTwoBitsSufficeIff`).
* Other places where a comment and the code part, followed as the code has them:
  pkg/store/resolve.go:79-80 sweeps every old open incident, not only container ones; a snooze
  replaces an earlier deadline instead of extending it, and so shortens the mute if it ends earlier
  (`IncidentTable.SnoozeReplaces`), and an overlong one is an error instead of
  being clamped (pkg/store/snooze.go:31-60); a manual
  resolution restamps a row that is already resolved (pkg/store/sqlite.go:1509-1520).

## Model

| member | source | states |
|---|---|---|
| BreakerHistory.ExecutionBound | pkg/autoheal/cooldown.go:121-159 | At most ceil(span / cooldown) executions are allowed in any interval (x - span, x] of any log of decisions |
| BreakerHistory.AllowedApart | pkg/autoheal/cooldown.go:142-151 | Any two allowed executions are at least one cooldown apart |
| BreakerHistory.BurstTrips | pkg/autoheal/cooldown.go:221-225 | burstLimit strikes inside one burst window open the circuit at the last of them, unless one of them already did |
| BreakerHistory.OutcomeAfterTrip | cmd/agent/main.go:264-283 | An outcome is recorded only for a call allowed after every earlier trip ran out |
| BreakerGates.CallsApart | pkg/autoheal/cooldown.go:142-151 | An allowed call comes a full cooldown after every allowed call and every recorded outcome, failed or not |
| BreakerGates.WaitsIff | pkg/autoheal/cooldown.go:142-196 | Only those events make a call wait for the cooldown |
| BreakerGates.TripIff | pkg/autoheal/cooldown.go:192-226 | A strike opens the circuit iff it is at least the burstLimit-th since the last one that did and the last burstLimit fall within one burst window |
| BreakerGates.TripMeans | pkg/autoheal/cooldown.go:167-226 | What opens the circuit completes burstLimit failures, or burstLimit crashes, within one burst window |
| BreakerGates.BurstShuts | pkg/autoheal/cooldown.go:167-226 | Such a burst, all of it in the last open time, holds the circuit open |
| BreakerPace.SteadyFills | pkg/autoheal/cooldown.go:121-159 | Successful executions a cooldown apart fill any span with as many as the bound admits |
| BreakerBound.FailuresApart | pkg/autoheal/cooldown.go:142-151 | Two failing executions are at least one cooldown apart |
| BreakerBound.TripPushes | pkg/autoheal/cooldown.go:129-140 | The failure after a trip comes at least the open time later |
| BreakerBound.FailuresArePaced | pkg/autoheal/cooldown.go:121-226 | The failures of every log that follows the rules are paced: a cooldown apart, and the open time apart after a trip |
| BreakerBound.PacedRuns | pkg/autoheal/cooldown.go:121-226 | Conversely every paced list of times is the failures of such a log, with the trips where the list has them |
| BreakerBound.PacedSpan | pkg/autoheal/cooldown.go:192-226 | burstLimit + 1 consecutive paced failures take at least the safe span |
| BreakerBound.FailureBound | pkg/autoheal/cooldown.go:121-226 | At most burstLimit failing executions in any interval up to the safe span |
| BreakerBound.SafeSpanCovers | pkg/autoheal/cooldown.go:121-226 | The safe span is at least the smaller of burst window and open time |
| BreakerBound.FailureBoundIff | pkg/autoheal/cooldown.go:121-226 | At most burstLimit failing executions fit into every interval of a length, in every log that follows the rules, if and only if the length is at most the safe span |
| CircuitBreaker.Effective | pkg/autoheal/cooldown.go:78-93 | A strategy with a non-positive field is replaced as a whole by the default one, any other is kept |
| CircuitBreaker.GatesMatchLog | pkg/autoheal/cooldown.go:129-151 | The stored deadline holds the circuit open, and the stored last use keeps it cooling, exactly when the complete log says so |
| CircuitBreaker.AnswerFits | pkg/autoheal/cooldown.go:129-158 | An answer computed from last trip and last use is the one told on the events: who must wait, why, and for how long |
| CircuitBreaker.StrikeMatches | pkg/autoheal/cooldown.go:167-187 | Appending to a purged window and counting it decides a trip exactly as the complete list of strikes does, and what is kept still stands for that list |
| CircuitBreaker.AllowMatchesLog | pkg/autoheal/cooldown.go:121-159 | With any earlier purges, the call is allowed exactly when the complete log allows it, and the entries keep standing for the log |
| CircuitBreaker.RecordMatchesLog | pkg/autoheal/cooldown.go:192-226 | Recording an outcome keeps the entries standing for the complete log, the failure and crash windows sorted and shorter than burstLimit |
| CircuitBreaker.RecordMeans | pkg/autoheal/cooldown.go:192-226 | Any outcome is the last use; it opens the circuit for the open time iff with it burstLimit failures are newer than the burst window, and then failures and attempts start over |
| CircuitBreaker.CrashMatchesLog | pkg/autoheal/cooldown.go:167-187 | The same for a recorded crash |
| CircuitBreaker.Breaker.constructor | pkg/autoheal/cooldown.go:78-93 | A new breaker has the effective strategy and an empty log for every key |
| CircuitBreaker.Breaker.Allow | pkg/autoheal/cooldown.go:121-159 | The answer, with its reason, opening time and retry time, told on the events of the key's log: allowed only a cooldown after every allowed call and every outcome, failed or not, and with no burst of failures or crashes in the open time; "cooldown" names the last such event, "circuit_open" one that completed a burst; no other key changes |
| CircuitBreaker.Breaker.PurgeLocked | pkg/autoheal/cooldown.go:229-251 | Each of the key's three windows keeps exactly its entries newer than the burst window, in order |
| CircuitBreaker.Breaker.Decide | pkg/autoheal/cooldown.go:127-158 | The decision from deadline and last use, removal of an expired deadline, and the stamp of an allowed call |
| CircuitBreaker.Breaker.ResultMatchesLog | pkg/autoheal/cooldown.go:129-151 | The times the answer is computed from are the last trip and the last use in the complete log |
| CircuitBreaker.Breaker.Record | pkg/autoheal/cooldown.go:192-226 | The outcome, failed or not, joins the key's log and so counts for every later answer; other keys are untouched |
| CircuitBreaker.Breaker.CountOutcome | pkg/autoheal/cooldown.go:192-226 | The in-place update: any outcome is the last use, a failure counts, a trip clears failures and attempts |
| CircuitBreaker.Breaker.RecordCrash | pkg/autoheal/cooldown.go:167-187 | The crash joins the key's log and the entries keep standing for it; other keys are untouched |
| CircuitBreaker.Breaker.CountCrash | pkg/autoheal/cooldown.go:167-187 | The in-place update of the crash window and the trip that clears only it |
| Windows.CompactInPlace | pkg/autoheal/cooldown.go:232-240 | Overwriting the front of a window while reading it yields its newer entries in order |
| Windows.AgreePurge | pkg/autoheal/cooldown.go:229-251 | Purging loses nothing a later question can ask for |
| Windows.SpacedBoundsCount | pkg/autoheal/cooldown.go:192-226 | If no b + 1 consecutive entries fall within a gap, every interval of that length holds at most b |
| Policy.StrategyFor | pkg/policy/policy.go:190-195 | Every class keeps its name, an unknown one is the default, and each has a strategy the breaker accepts as it is |
| Policy.DearerIsSlower | pkg/policy/policy.go:48-103 | From stateless over cache, default and database to critical the cooldown grows and burst window and open time do not shrink; the burst limit falls, but for the cache |
| Policy.UnknownIsDefault | pkg/policy/policy.go:187-195 | An unknown class behaves as the strategy that replaces an unusable one |
| Agent.Agent.constructor | cmd/agent/main.go:409-414 | The agent starts without breakers and with nothing pending |
| Agent.Agent.Pin | cmd/agent/main.go:422-432 | A key's first use creates a fresh breaker with the strategy of the class it has then |
| Agent.Agent.ForKey | cmd/agent/main.go:416-433 | A known key keeps its breaker and class, an unknown one is pinned; no other key is touched |
| Agent.Agent.Execute | cmd/agent/main.go:282-293 | The outcome is recorded, and a target down after restart is recorded as a crash as well |
| Agent.Agent.Ask | cmd/agent/main.go:264-267 | The breaker answers with the reason its complete log gives, and enters its decision |
| Agent.Agent.Attempt | cmd/agent/main.go:264-293 | A command runs exactly when the log allows it, and then adds exactly its decision, outcome and crash to the log |
| Agent.Agent.Handle | cmd/agent/main.go:258-307 | One command pins its key if need be, goes through its breaker, leaves one entry, and touches no other key |
| Agent.Agent.HandleAll | cmd/agent/main.go:258-307 | After all commands of a response every key went through exactly its own commands, each command left its entry in order, and no breaker was replaced |
| Agent.HandlingMeans | cmd/agent/main.go:258-307 | What one command leaves, on the events: the class of first use stays; it is skipped with the breaker's reason and a denial, or runs, is ok or failed as it came out, and is recorded so, as a crash too if the target is down after restart |
| Agent.Agent.Bounds | cmd/agent/main.go:258-307 | At any time, for every key and its pinned class: at most ceil(span / cooldown) allowed executions in every interval, at most burstLimit failing ones in every interval up to the safe span |
| Agent.Agent.ExpensiveTargets | pkg/policy/policy.go:87-104 | Failing and total restarts by class: a database at most 3 in vain in any 17 minutes and 8 in any 15, a critical target 2 in any 35 and 6 in any 30, the default class 5 in any 9 and 10 in any 10, a cache 4 in any 6.5 and 20 in any 10, a stateless service 6 in any 4.25 and 40 in any 10 |
| Agent.SafeSpans | pkg/policy/policy.go:59-104 | The exact safe span, burst limit, cooldown and number of executions per burst window of every class |
| Agent.AllFail | cmd/agent/main.go:258-307 | Commands at paced times that all fail are all run, and leave exactly those failures in the log |
| Agent.LongerSpanExceeds | cmd/agent/main.go:258-307 | For every class and every span beyond its safe span, some commands of a fresh agent fail once more than burstLimit within the span |
| Agent.ExecutionBoundIsReached | cmd/agent/main.go:258-307 | For every class and span, some commands of a fresh agent are executed ceil(span / cooldown) times within the span |
| Agent.MaxAttemptsIsNoBound | pkg/policy/policy.go:36-44 | For every class, some commands are executed more often than MaxAttempts within one burst window |
| HitLog.RunKeeps | pkg/store/ratelimit.go:39-73 | In every run, with late readings, sweeps and resets, the stored hits of a key stand for its complete log from a known moment on, and the log is thin: every call was allowed with fewer than limit earlier ones in the window less the lateness |
| HitLog.SweepKeeps | pkg/store/ratelimit.go:49-57 | A sweep keeps that, even when it evicts the key |
| HitLog.AdmitKeeps | pkg/store/ratelimit.go:59-72 | So do filter, comparison and append, with the call's reading late by any amount |
| HitLog.InTimeDecides | pkg/store/ratelimit.go:59-72 | In such a state a call in time is allowed iff fewer than limit, denied iff exactly limit, calls of the complete log lie in its window |
| HitLog.IntervalBound | pkg/store/ratelimit.go:39-73 | ... and every interval of the window less the key's lateness holds at most limit |
| HitLog.RunKeepsOne | pkg/store/ratelimit.go:39-73 | With a limit of one, lateness does no harm: the last allowed call is the newest, and no two are closer than a window |
| HitLog.LateMeans | pkg/store/ratelimit.go:43-47 | The lateness of a key is how far one of its readings came behind an earlier one of its own |
| HitLog.BehindMeans | pkg/store/ratelimit.go:43-47 | ... and that of the limiter how far any reading came behind an earlier one of any key |
| HitLog.BoundFails | pkg/store/ratelimit.go:43-47 | For every limit above one and lateness up to the window, a run with limit + 1 allowed calls in an interval of any length beyond window less lateness |
| HitLog.BoundIff | pkg/store/ratelimit.go:39-73 | In all runs with lateness at most D, every interval of a length holds at most limit allowed calls of a key, if and only if the length is at most the window less D, or for a limit of one at most the window |
| RateLimiter.EvictionIsSafeIff | pkg/store/ratelimit.go:49-57 | Eviction never drops a hit that still counts if and only if its horizon is not shorter than the window |
| RateLimiter.RateLimiter.constructor | pkg/store/ratelimit.go:27-35 | The limiter starts empty, with an eviction horizon of three windows |
| RateLimiter.RateLimiter.Sweep | pkg/store/ratelimit.go:49-57 | Exactly the idle keys disappear, the others keep their hits |
| RateLimiter.RateLimiter.Allow | pkg/store/ratelimit.go:39-73 | A call whose reading is in time is allowed iff fewer than limit, and denied iff exactly limit, allowed calls of the complete log lie in the window; any call is decided by the run of calls so far, joins the log iff allowed, and changes no other key's log |
| RateLimiter.RateLimiter.Decide | pkg/store/ratelimit.go:39-73 | Map and sweep time stay, for every key at once, what the run of calls so far says |
| RateLimiter.RateLimiter.SweepAndAdmit | pkg/store/ratelimit.go:49-72 | The call on the map: a due sweep removes exactly the idle keys, the key's hits become the ones in the window, plus this call if allowed |
| RateLimiter.RateLimiter.Reset | pkg/store/ratelimit.go:77-81 | The key starts over, the logs of the others stay |
| RateLimiter.RateLimiter.WindowBound | pkg/store/ratelimit.go:39-73 | At any time every interval of one window, less the lateness of the key's own readings, holds at most limit allowed calls of a key since its last reset, as long as no reading came behind others by more than two windows |
| IncidentTable.OpenBelow | pkg/store/sqlite.go:1338-1343 | The lookup finds the open row of (node, title) with the highest id |
| IncidentTable.FindOpenMeans | pkg/store/sqlite.go:1338-1343 | In every reachable table it finds the one open row, or there is none |
| IncidentTable.CreateKeepsInv | pkg/store/sqlite.go:1328-1384 | A create keeps the table's invariant: one open row per (node, title), spaced attempts, snoozes respected |
| IncidentTable.CreateRaises | pkg/store/sqlite.go:1328-1384 | A create, told on the rows: insert and notify, or refresh the detail and notify iff snooze and cooldown (60 s if critical, else 300 s) are over |
| IncidentTable.CloseKeepsInv | pkg/store/resolve.go:158-168 | So does an automatic resolution |
| IncidentTable.PruneKeepsInv | pkg/store/janitor.go:78-81 | So does the retention delete |
| IncidentTable.StepKeepsInv | pkg/store/sqlite.go:1328-1384 | So does every operation, whoever performs it |
| IncidentTable.EveryRun | pkg/store/sqlite.go:1321-1384 | In every run, at most one row is open per (node, title), attempts of a row are a cooldown apart, none falls before the snooze deadline in force or after the row is closed, and a row is closed at most once |
| IncidentTable.AttemptsApart | pkg/store/sqlite.go:1321-1384 | In every run two attempts about one row are 60 s apart, 300 s unless the later one is critical, and none follows its closing |
| IncidentTable.NoReopening | pkg/store/sqlite.go:1506-1533 | A resolved row never becomes open again and its id is never reused |
| IncidentTable.RepeatNotifiesIff | pkg/store/sqlite.go:1365-1382 | A repeated crossing refreshes the detail and notifies iff the snooze in force is over and a full cooldown passed since the last attempt or snooze |
| IncidentTable.SnoozeReplaces | pkg/store/snooze.go:31-60 | A snooze of an open row puts its own deadline in force, which is earlier than before iff first reading plus duration is, and the next crossing notifies iff that deadline and a full cooldown since the snooze are over |
| IncidentTable.AnnouncedByTheCloser | pkg/store/resolve.go:158-198 | A resolution is announced iff this very step moved the row from open to resolved automatically |
| IncidentStore.CreateOpens | pkg/store/sqlite.go:1328-1384 | A create opens its pair, keeps the start of one already open, and affects no other pair |
| IncidentStore.CloseCloses | pkg/store/resolve.go:158-168 | A close closes its pair and no other |
| IncidentStore.ManualCloses | pkg/store/sqlite.go:1506-1533 | A permitted manual resolution closes the pair of its row if it is open, and no other |
| IncidentStore.PruneKeepsOpen | pkg/store/janitor.go:78-81 | The retention delete leaves every open incident |
| IncidentStore.MemoryHysteresis | pkg/store/sqlite.go:1300-1302 | After a heartbeat the memory incident is open above 92, closed at 90 or below, and as before in between |
| IncidentStore.ContainerOpenIff | pkg/store/resolve.go:118-150 | After a heartbeat a container's incident is open iff it was open or is raised now, the first service of that name is stopped, and its row is at most 30 minutes old |
| IncidentStore.StoppedDockersOnlyIff | pkg/store/sqlite.go:1303-1307 | With distinct names, "open iff reported as a stopped docker service with a young row" holds iff the name was not already open, young, and now stopped under another type |
| IncidentStore.StaysOpenForOtherKind | pkg/store/resolve.go:118-150 | A failing input: an open young incident whose service is now reported stopped under another type stays open |
| IncidentStore.OtherKindStaysOpen | pkg/store/sqlite.go:1300-1312 | Two heartbeats on an empty store that end with the incident open and no docker service stopped |
| IncidentStore.OtherTitlesUntouched | pkg/store/resolve.go:118-150 | A heartbeat opens and closes no incident of another title |
| IncidentStore.ReasonMeans | pkg/store/resolve.go:118-150 | Each reason to resolve, told on the heartbeat: memory at 90 or below, no service of that name, the first one active, or stopped for more than 1800 s |
| IncidentStore.StaleCarries | pkg/store/sqlite.go:1300-1312 | The stale sweep keeps every incident, and all it resolves belong to the node and have such a reason |
| IncidentStore.SettledIsYoung | pkg/store/janitor.go:53-73 | After a pass no open row is old enough for the sweep |
| IncidentStore.PruneSettles | pkg/store/janitor.go:75-89 | The retention delete keeps the outcome of a pass and has nothing left to delete afterwards |
| IncidentStore.PassMeans | pkg/store/janitor.go:53-89 | Sweep, watchdog and retention together, row by row |
| IncidentStore.IncidentStore.Lookup | pkg/store/sqlite.go:1338-1343 | The loop over the rows finds the newest open row of (node, title) |
| IncidentStore.IncidentStore.CreateIncident | pkg/store/sqlite.go:1328-1384 | Without an open row of the pair one row is inserted as given and notified about; an open one gets the new detail and is notified about iff its snooze is over and its last stamp is 60 s old for a critical crossing, 300 s for any other |
| IncidentStore.IncidentStore.MarkResolvedAndNotify | pkg/store/resolve.go:158-198 | The row is resolved now, for that reason, and announced iff it was open, which is also what is returned; nothing else changes |
| IncidentStore.IncidentStore.ResolveIncident | pkg/store/sqlite.go:1506-1533 | A permitted row ends resolved, stamped now with reason manual and otherwise unchanged; its pair is closed if it was open and no other pair changes, one unannounced closing is logged iff it was open; missing and forbidden rows are told apart and change nothing |
| IncidentStore.IncidentStore.SnoozeIncident | pkg/store/snooze.go:31-62 | An open row is muted until first reading plus duration and stamped with the second reading; a bad duration or a closed row is an error and changes nothing |
| IncidentStore.IncidentStore.AcknowledgeIncident | pkg/store/callback_actions.go:22-44 | An open row is stamped acknowledged once; nothing else ever changes |
| IncidentStore.IncidentStore.PruneResolved | pkg/store/janitor.go:75-89 | Exactly the rows resolved at a known time before the cutoff are gone, all others are there unchanged, and the answer is their number |
| IncidentStore.IncidentStore.ResolveStaleIncidents | pkg/store/resolve.go:31-67 | Exactly the open rows of the heartbeat's node whose condition it clears are resolved, at the marking time and for their reason, and of every node and title exactly those incidents are closed |
| IncidentStore.IncidentStore.ResolveAbandonedAcrossFleet | pkg/store/resolve.go:74-105 | Exactly the open rows of any title started more than 1800 s ago (and after 0) are resolved, at the marking time as abandoned, and the answer is their number |
| IncidentStore.IncidentStore.IngestIncidents | pkg/store/sqlite.go:1300-1312 | What is open for every node and title after the incident part of a heartbeat; every row lives on, resolved ones unchanged, new ones are the heartbeat's with their severity, and what it resolved it resolved for a reason it gives |
| IncidentStore.IncidentStore.RaiseIncidents | pkg/store/sqlite.go:1300-1307 | What is open after its raising half, and that nothing is resolved by it |
| IncidentStore.IncidentStore.HasOpenSilentNodeIncident | pkg/store/silent_watchdog.go:160-178 | True iff the node's "Node Silent" incident is open |
| IncidentStore.IncidentStore.ResolveSilentNodeIncident | pkg/store/silent_watchdog.go:122-154 | Closes the node's "Node Silent" incident and nothing else, and tells whether there was one |
| IncidentStore.IncidentStore.SilentNodeWatchdog | pkg/store/silent_watchdog.go:57-115 | Whatever the map order: a node has its incident open iff its last heartbeat is more than 120 s old, the raised and closed lists are exactly the changes, and every row but those is untouched |
| IncidentStore.IncidentStore.CheckNode | pkg/store/silent_watchdog.go:66-113 | The four cases of the loop body for one node, on what is open and on the rows |
| IncidentStore.IncidentStore.SweepAndWatch | pkg/store/janitor.go:58-73 | Sweep then watchdog: what is open afterwards, which rows changed how, and nothing at all when the table is quiet |
| IncidentStore.IncidentStore.RunJanitorPass | pkg/store/janitor.go:53-89 | After a pass exactly the nodes silent for more than 120 s have their incident open, no open row is older than 1800 s and no expired row is left; every row resolved before and not expired, and every open one neither abandoned nor heard from, is as it was |
| IncidentStore.IncidentStore.RunJanitorTwice | pkg/store/janitor.go:53-89 | A second pass at the same clock raises, closes and sweeps nothing |
| AlertEvaluator.EpisodeStart | pkg/store/alert_evaluator.go:97-109 | The breach of a sample began at the first sample after the last one inside |
| AlertEvaluator.PhaseMeans | pkg/store/alert_evaluator.go:95-158 | The state of a rule on a node after any list of samples says when the current breach began and whether it has lasted long enough yet |
| AlertEvaluator.FiresIff | pkg/store/alert_evaluator.go:95-158 | A sample fires iff it is the first of its breach by which the breach has lasted ForSeconds whole seconds, as the rule stood at that sample |
| AlertEvaluator.FirstDweltMeans | pkg/store/alert_evaluator.go:118-119 | The sample that fires, in nanoseconds and seconds: its breach has lasted ForSeconds by it, and by no earlier sample of the breach |
| AlertEvaluator.OneFirePerBreach | pkg/store/alert_evaluator.go:118-142 | Of the samples of one breach at most one is the first to dwell, and one is if the breach ever lasts long enough |
| AlertEvaluator.OneMoreSample | pkg/store/alert_evaluator.go:95-158 | Entering one more sample keeps: exactly the first sample of each breach to dwell long enough fired |
| AlertEvaluator.TurnObserves | pkg/store/alert_evaluator.go:182-210 | A turn adds to the log the value of the rule's metric, out of bounds on the side its operator names, and nothing for a disabled rule or unknown metric |
| AlertEvaluator.AlertedMeans | pkg/store/alert_evaluator.go:118-131 | The creates of the firing rules, row by row: no incident is lost or resolved, new ones have a firing rule's title and severity, each firing rule has one open |
| AlertEvaluator.Evaluator.constructor | pkg/store/alert_evaluator.go:47-53 | No rule has a breach, fires, or has seen a sample at the start |
| AlertEvaluator.Evaluator.EvaluateRule | pkg/store/alert_evaluator.go:82-158 | One rule's turn: a disabled rule or unknown metric adds nothing; otherwise a sample joins the log, breaching iff the metric is above the threshold for gt or below it for lt, it fires iff it is the first of its breach to dwell long enough, and an incident is raised with the rule's title and severity iff it fires; no other key changes |
| AlertEvaluator.Evaluator.TakeTurn | pkg/store/alert_evaluator.go:82-158 | The same turn on the two maps and the store: breach start, firing id, create, or both entries cleared |
| AlertEvaluator.Evaluator.OneFire | pkg/store/alert_evaluator.go:95-158 | Over all evaluations so far: of the samples of one breach at most one fired, and one did if the breach ever lasted long enough |
| AlertEvaluator.Evaluator.IncidentIDAfterCreate | pkg/store/alert_evaluator.go:167-177 | The id of the open row, 0 iff there is none |
| AlertEvaluator.Evaluator.EvaluateMetricAlert | pkg/store/alert_evaluator.go:73-160 | Every rule takes its turn in order on its own log, sees its metric, fires as that log says, and the table receives exactly the creates of the firing rules: every new row has title and severity of one, for each an incident is open, no other row changes; all other keys stay as they are |
| Interleaving.Linearize | pkg/store/alert_evaluator.go:118-142 | Any interleaving of evaluator steps and other actors is a timed run of table operations |
| Interleaving.EveryInterleaving | pkg/store/alert_evaluator.go:95-158 | Under every interleaving: one open incident per (node, title), and the notification guarantees of every run |
| Interleaving.NeverReopens | pkg/store/alert_evaluator.go:95-158 | Under every interleaving a resolved row stays resolved or is deleted, and its id is not reused |
| Interleaving.AnnouncedOnlyByCloser | pkg/store/resolve.go:158-198 | A step announces a resolution iff it is the automatic one that closes an open row; the evaluator's own steps never do |
| Interleaving.UninterruptedSteps | pkg/store/alert_evaluator.go:95-154 | The four steps of one heartbeat, uninterrupted, are one turn of the rule |
| Interleaving.TaskFinishes | pkg/store/alert_evaluator.go:127-137 | A task nobody interrupts creates its incident and stores its non-zero id |
| Interleaving.OwnBreachIff | pkg/store/alert_evaluator.go:134-137 | A step lets another breach's task mark a key iff it stores an open incident while the task's breach is no longer the one in progress |
| Interleaving.RunOwnBreachIff | pkg/store/alert_evaluator.go:95-158 | Through any run keys are marked only by tasks of the very breach in progress iff no such stale store happens |
| Interleaving.SilentOnlyByOwnBreach | pkg/store/alert_evaluator.go:118-142 | In any run without stale stores, a long-enough breaching sample fires unless a task given to that very breach has stored its incident |
| Interleaving.RunIsHonest | pkg/store/alert_evaluator.go:95-158 | In any run, a task or mark that bears the number of the breach in progress was given to it, and none bears a later number |
| Interleaving.StaysMarkedIff | pkg/store/alert_evaluator.go:116-154 | A marked key stays marked iff the step is no sample inside and no store that finds nothing, and no breaching sample of it fires |
| Interleaving.StaleStoreSilences | pkg/store/alert_evaluator.go:116-154 | In any run, after a stale store and until its key is re-armed, no breaching sample fires, whichever breach it belongs to |
| Interleaving.ClosedStaysSilent | pkg/store/alert_evaluator.go:116-154 | In any run, after another actor closed an incident while a key is marked and until the key is re-armed, no breaching sample of it fires and the incident is not open again |
| Interleaving.SweptIsNotRaisedAgain | pkg/store/alert_evaluator.go:116-154 | A run in which the sweep closes the incident of a breach that goes on, and the next sample raises nothing |
| Interleaving.FiresAgainIff | pkg/store/alert_evaluator.go:116-142 | A breach that was given a task fires again at a long-enough sample iff its key is not marked, and then a task of it is still under way or the last store found no open incident |
| Interleaving.LateStoreSuppressesNextBreach | pkg/store/alert_evaluator.go:134-158 | A run in which a late store marks a key with no breach in progress and the next breach stays silent |
| Interleaving.LateStoreSilencesBreachInProgress | pkg/store/alert_evaluator.go:134-158 | Runs in which it lands after the next breach began, which was given no task and stays silent although it has lasted long enough, whatever reading it began at |
| Interleaving.TwoDecisionsFireTwice | pkg/store/alert_evaluator.go:116-120 | A run in which two samples of one breach both fire, the first task not having stored its id |
| Interleaving.ClosedRowRearms | pkg/store/alert_evaluator.go:134-142 | A run in which the incident is closed before its id is stored and the same breach fires again |
| Icmp.Words | pkg/probe/icmp.go:291-298 | A buffer as big-endian 16-bit words, an odd last byte padded with zero |
| Icmp.OnesSumIsNorm | pkg/probe/icmp.go:291-303 | Adding with end-around carry is adding modulo 65535, with 0 only for all zeros |
| Icmp.ChecksumIsNorm | pkg/probe/icmp.go:291-303 | The checksum is the complement of the sum modulo 65535, and a buffer verifies iff its sum is a positive multiple of 65535 |
| Icmp.ChecksumOfBytes | pkg/probe/icmp.go:291-303 | The same on the bytes: even positions count 256-fold |
| Icmp.Accumulate | pkg/probe/icmp.go:292-298 | The loops compute the sum of the words in wrapping 32-bit arithmetic |
| Icmp.Fold | pkg/probe/icmp.go:299-301 | The folding loop ends, with the 16-bit word of the same residue |
| Icmp.IcmpChecksum | pkg/probe/icmp.go:291-303 | The checksum of any buffer of up to 131074 bytes is the one of RFC 1071 |
| Icmp.ThirtyTwoBitsSufficeIff | pkg/probe/icmp.go:292-303 | A 32-bit accumulator is right for all buffers of a length iff the length is at most 131074 |
| Icmp.StampedVerifies | pkg/probe/icmp.go:283-284 | Writing the checksum into a zeroed word makes any buffer verify |
| Icmp.SingleWordChangeDetectedIff | pkg/probe/icmp.go:291-303 | A change of one word of a verifying buffer goes unnoticed iff it is none, or exchanges 0x0000 and 0xffff in a buffer not left all zero |
| Icmp.ChecksumPermutes | pkg/probe/icmp.go:293-295 | The checksum does not depend on the order of the words |
| Icmp.ChecksumSwaps | pkg/probe/icmp.go:293-302 | Swapping the bytes of every word swaps those of the checksum |
| Icmp.PutUint16 | pkg/probe/icmp.go:281-284 | Storing a big-endian word replaces that word and nothing else |
| Icmp.ComposeEcho | pkg/probe/icmp.go:272-282 | The request before its checksum: type 8, code 0, id, sequence number, zero payload |
| Icmp.StampedIsRequest | pkg/probe/icmp.go:267-286 | With its checksum written it is a request for (id, seq) that verifies |
| Icmp.BuildIcmpEcho | pkg/probe/icmp.go:267-286 | For every id, sequence number and payload length: type 8, code 0, id and sequence number in network order, the payload length nearest to the one asked for between 16 and 1400, zero payload, and the packet re-checksums to zero |
| Icmp.ReadOneEcho | pkg/probe/icmp.go:312-339 | The first arriving packet that is a reply to (id, seq) is taken, all before it are skipped |
| Icmp.ReplyMatchesIff | pkg/probe/icmp.go:324-352 | A reply, bare or in an IPv4 frame with any header length, matches exactly the waiter for its id and sequence number |
| Icmp.RequestIsNoReply | pkg/probe/icmp.go:324-352 | A looped-back request, bare or framed, matches no waiter |
| Percentile.Insert | pkg/store/probes.go:229-236 | One round of the sort: the sorted part grows by one, as a permutation |
| Percentile.SortInPlace | pkg/store/probes.go:229-236 | The slice ends sorted and a permutation of what it was |
| Percentile.SortedIsUnique | pkg/store/probes.go:229-236 | A list has one sorted permutation, so the order of arrival does not matter |
| Percentile.OrderStatistic | pkg/store/probes.go:222-246 | At least rank + 1 values are at most the answer, and at least n - rank are at least it |
| Percentile.RankIsPercentile | pkg/store/probes.go:238-245 | The value of the clamped rank is the quantile |
| Percentile.Percentile | pkg/store/probes.go:222-246 | The answer is the quantile: at most the fraction p of the values is below it, more than that fraction at most it; the largest value from p = 1 on, the smallest below 0, 0 for no values |
| Percentile.PercentileIsUnique | pkg/store/probes.go:222-246 | That description determines the answer on every arrangement of the values |
| Percentile.RankGrows | pkg/store/probes.go:238-244 | A larger quantile has no smaller rank |
| Percentile.SummaryPercentiles | pkg/store/probes.go:186-208 | Asking p50 and then p95 of the same mutated slice: at most 50 (95) hundredths of the samples as they came are below the answer, more are at most it, and p50 <= p95 |
| AuditBatches.StepHeld | pkg/alerter/webhook_recorder.go:67-113 | What each step does to the rows that exist: a new one is added, or the rows that did not fit or were abandoned are taken out, all else only moves |
| AuditBatches.StepLoses | pkg/alerter/webhook_recorder.go:96-113 | What is lost beyond the dropped count grows by the rows a step loses silently, which are none iff a requeue has no room or room for all, and no batch is abandoned |
| AuditBatches.EveryRun | pkg/alerter/webhook_recorder.go:67-113 | In every run, with any number of batches under way: the buffer is bounded, no row is duplicated, and at least the dropped rows are lost |
| AuditBatches.LossesCountedIff | pkg/alerter/webhook_recorder.go:96-113 | Exactly the dropped rows are lost iff no requeue was cut and no batch abandoned |
| AuditBatches.ExistingIsHeld | pkg/alerter/webhook_recorder.go:67-113 | The number of existing rows is the size of the multiset of persisted, flying and pending ones |
| AuditOrder.OrderIffTimely | pkg/store/janitor.go:108-117 | Rows are persisted in recording order iff every commit brings an ordered batch that begins after all that is persisted |
| AuditOrder.DrainOrderIff | pkg/store/webhook_retry.go:71-76 | As long as no batch is put back after a later drained one went its way, rows are persisted in recording order, followed by the pending ones, iff batches commit in the order they were drained |
| AuditOrder.OneDrainerInOrder | pkg/store/janitor.go:108-117 | With one drainer at a time persisted and then pending rows are always in recording order |
| AuditOrder.RetryOvertakesJanitor | pkg/store/webhook_retry.go:71-76 | A run in which a retry commits a newer row before the janitor commits an older one |
| AuditOrder.OvertakenRequeue | pkg/alerter/webhook_recorder.go:96-113 | A run in which batches commit in the order they were drained and rows still do not, because a batch was put back too late |
| AuditOrder.FailedRetryLosesBatch | pkg/store/webhook_retry.go:71-76 | A run in which a failed retry loses a row and none is counted |
| WebhookRecorder.WebhookRecorder.constructor | pkg/alerter/webhook_recorder.go:38-44 | The buffer starts empty with room for 1024 rows |
| WebhookRecorder.WebhookRecorder.Record | pkg/alerter/webhook_recorder.go:67-75 | A row is appended, or dropped and counted when the buffer is full |
| WebhookRecorder.WebhookRecorder.Drain | pkg/alerter/webhook_recorder.go:81-91 | All pending rows are handed over in order as a new batch, whatever other batches are under way |
| WebhookRecorder.WebhookRecorder.Requeue | pkg/alerter/webhook_recorder.go:96-113 | The newest rows of any drained batch that fit go back in front; the call loses nothing silently iff there is no room at all or room for all |
| WebhookRecorder.WebhookRecorder.Prepend | pkg/alerter/webhook_recorder.go:96-113 | The same on the buffer and the counter alone |
| WebhookRecorder.WebhookRecorder.Pending | pkg/alerter/webhook_recorder.go:116-120 | The number of pending rows |
| WebhookRecorder.WebhookRecorder.FlushPass | pkg/store/janitor.go:108-117 | Whatever else is in flight: a stored batch is persisted once; a failed one is back in the buffer, in order and complete |
| WebhookRecorder.WebhookRecorder.FlushAfterRetry | pkg/store/webhook_retry.go:71-76 | What a retry drains is persisted, or all of it is lost without being counted |
| WebhookRecorder.OverflowIsNotCounted | pkg/alerter/webhook_recorder.go:107-112 | A run that loses a row in a requeue and counts none |
| IncidentStats.RangeOf | pkg/store/incidents_history.go:113-127 | Every range key has a positive window that is a whole number of buckets |
| IncidentStats.QueryMeans | pkg/store/incidents_history.go:139-188 | Looking a bucket up in the grouped query, with zeros for a missing group, gives its count per severity |
| IncidentStats.BucketMeans | pkg/store/incidents_history.go:139-146 | The times of a bucket are one interval; truncation toward zero makes it twice as long, less one, at zero |
| IncidentStats.OpenedMeans | pkg/store/incidents_history.go:139-175 | Counting incidents opened in an interval is taking the size of a set |
| IncidentStats.ResolvedMeans | pkg/store/incidents_history.go:180-208 | So is counting resolved ones, of those that are resolved |
| IncidentStats.NothingLost | pkg/store/incidents_history.go:139-226 | The buckets from that of the window's start to that of now together count every selected incident once |
| IncidentStats.MergeOpened | pkg/store/incidents_history.go:161-175 | After the first loop every bucket has its opened counts |
| IncidentStats.MergeResolved | pkg/store/incidents_history.go:193-208 | After the second it has its resolved counts as well |
| IncidentStats.Materialize | pkg/store/incidents_history.go:211-226 | Contiguous aligned buckets up to now are emitted, each with the counts of its interval |
| IncidentStats.CountsConserved | pkg/store/incidents_history.go:110-227 | Every column adds up to the incidents of that severity in the window |
| IncidentStats.GetIncidentStats | pkg/store/incidents_history.go:110-227 | 25 buckets of an hour, 31 of a day or 29 of six hours up to that of now, adjacent, each counting per severity the incidents that started, and those that were resolved, in its seconds inside the window |
| Callbacks.LastIndexBefore | pkg/alerter/telegram_actions.go:105 | The position of the last occurrence of a character |
| Callbacks.SplitUndoesSigned | pkg/alerter/telegram_actions.go:104-110 | Splitting undoes signing: body and signature come apart; an unsigned body is split only at its own dot |
| Callbacks.VerifySigned | pkg/alerter/telegram_actions.go:69-100 | Verifying what was signed parses the body, except that an unsigned body with a dot is rejected |
| Callbacks.ActionRoundTripIff | pkg/alerter/telegram_actions.go:53-100 | Verify undoes sign for an acknowledge or resolve button iff the id is non-empty without a colon (unsigned: without a dot) |
| Callbacks.SnoozeRoundTripIff | pkg/alerter/telegram_actions.go:145-189 | Verify undoes sign for a snooze button iff the duration is allowed and the id non-empty (unsigned: without a dot) |
| Callbacks.SnoozeClassified | pkg/alerter/telegram_actions.go:69-123 | The generic verifier classifies a snooze button as one |
| Callbacks.SnoozeIsHours | pkg/alerter/telegram_actions.go:37-41 | An allowed duration means so many hours, any other nothing |
| Callbacks.AcceptedIffSigned | pkg/alerter/telegram_actions.go:69-189 | Under a secret data are accepted with a given meaning iff they are a body with that meaning, a dot and the body's hash; for a snooze np:snooze:id:duration with an allowed duration |
| Callbacks.ButtonsDiffer | pkg/alerter/telegram_actions.go:128-153 | Different buttons carry different data |
| Billing.WindowOverRuns | pkg/store/billing.go:36-91 | However saves and paid calls are ordered and repeated, a user's window is 30 days for each distinct paid invoice, from its initial end or else the first payment |
| Billing.PaidAtIsStable | pkg/store/billing.go:58-80 | A stamped payment time never changes, nor does an invoice's owner |
| Billing.PaidAtIsChargeTime | pkg/store/billing.go:68-80 | In every run an invoice bears the time of the paid call that charged it, and its other data as they were then |
| Billing.ChargedOnce | pkg/store/billing.go:68-90 | A first charge is reported exactly once for every invoice some paid call found, never for another; exactly those are paid |
| Billing.PromiseKeptIff | pkg/store/billing.go:54-57 | The documented window is granted iff the old one has not ended before the payment; the user has paid time afterwards iff it ended less than 30 days ago or there was none |
| Billing.PaidWindowIsOpenIff | pkg/store/billing.go:58-87 | In every run, a payment leaves a window that is not over iff it comes less than 30 days per paid invoice after the initial end, or after the first payment |
| Billing.LapsedPayerGetsNothing | pkg/store/billing.go:58-87 | Save and pay one invoice, save and pay another 60 days or more after the first payment: both are paid and the window is over |
| Billing.BillingStore.SaveInvoice | pkg/store/billing.go:36-44 | A new invoice is inserted as given, created and unpaid; a taken id is an error and changes nothing |
| Billing.BillingStore.MarkInvoicePaid | pkg/store/billing.go:58-91 | Missing, already paid and first charge, told apart; only the last changes anything: the invoice is paid as of now and its owner on the paid plan for thirty days more |
| Uptime.CreditIsClose | pkg/store/uptime.go:68-83 | A credited gap is worth 1 to 35 seconds, less than a second from the truth |
| Uptime.CreditIsTrue | pkg/store/uptime.go:54-90 | The seconds any heartbeat log credits to a node differ from the true online time by less than one second per credited heartbeat |
| Uptime.OnlineOrAway | pkg/store/uptime.go:54-76 | With a clock that does not step back, online time plus the gaps beyond the window is the time from first to last heartbeat |
| Uptime.UptimeStore.StoredIsTrue | pkg/store/uptime.go:54-111 | The seconds stored for a node over all days differ from the time it was seen online by less than a second per credited heartbeat |
| Uptime.UptimeStore.StoredIsPresence | pkg/store/uptime.go:54-111 | Hence, if the clock never stepped back, from the time between its first and last heartbeat less its absences by as little |
| Uptime.UptimeStore.constructor | pkg/store/uptime.go:39-41 | Nothing has been seen or stored |
| Uptime.UptimeStore.RecordHeartbeat | pkg/store/uptime.go:54-90 | A gap of up to 35 s is returned and adds its whole seconds, at least one, to the day of the heartbeat, any other adds nothing; table and tracker keep saying, for every node, per day and over all days, what the heartbeat log says |
| Uptime.UptimeStore.UpsertUptime | pkg/store/uptime.go:94-111 | Exactly the row of (node, day), and so the node's total, grows, total and up alike, and keys stay unique |
| Uptime.UptimeStore.NodeUptimeDaily | pkg/store/uptime.go:203-262 | One bucket per day, as many as asked for between 1 and 90, the last that of now, each with the seconds the log credits to the node that day, 100 per cent or 0 |
| Uptime.UptimeStore.FleetUptimeDaily | pkg/store/uptime.go:269-326 | The same for the sum over the table |
| Uptime.FleetIsSumOfNodes | pkg/store/uptime.go:269-326 | On every day the fleet's seconds are the sum of its nodes' |
| Uptime.UptimeStore.FleetIsCredited | pkg/store/uptime.go:269-326 | ... and hence the sum of what the log credits to each |

## Left out

- Database errors: every statement succeeds. The evaluator's second unlock after a failed create
  (pkg/store/alert_evaluator.go:121 and :131) and the two separate updates of a payment
  (pkg/store/billing.go:78-89) are therefore not modelled.
- Delivery of notifications: the log records the attempt where the store decides to notify; missing
  settings, maintenance windows, recipients and texts come after it.
- Message texts, incident details and buttons' labels are parameters or absent.
- AlertEvaluator.Evaluator.EvaluateRule: without interference; steps of other heartbeats in between
  are in Interleaving, where OneFirePerBreach is false (Interleaving.TwoDecisionsFireTwice).
- Floating point: percentages, thresholds and quantiles are reals, without rounding.
- Agent.Agent.Handle: does not model the normalisation of a command into a key, its classification,
  or the timestamps and retry seconds of an entry; key, class and outcome come with the command.
- Policy.StrategyFor: retry delays and escalation (pkg/policy/policy.go:211-229) are not modelled.
- CircuitBreaker.Breaker.Allow: reasons are fixed strings; a wall clock that steps back is excluded.
- RateLimiter.RateLimiter.Allow: the nil receiver is absent; each call takes effect at one moment, with a
  reading made at any earlier one.
- IncidentStore.IncidentStore.ResolveStaleIncidents: all rows of one sweep are marked at one reading
  of the clock, and nobody else writes between its query and its updates; such interleavings are
  covered on the table (Interleaving.EveryInterleaving).
- IncidentStore.IncidentStore.ResolveAbandonedAcrossFleet: one reading and no interference, likewise.
- IncidentStore.IncidentStore.SilentNodeWatchdog: one reading for all its incidents, and no nil states.
- Percentile.Percentile: the rank is computed in reals, not in float64.
- IncidentStore.IncidentStore.ResolveIncident: ownership is a parameter.
- IncidentStore.IncidentStore.RunJanitorPass: expiry of maintenance windows and of webhook rows is
  absent; the flush is WebhookRecorder.WebhookRecorder.FlushPass.
- AlertEvaluator.Evaluator.EvaluateMetricAlert: the rule list is a parameter, operators and metric
  names are as stored (no trimming), and audit stamps are not modelled.
- WebhookRecorder.WebhookRecorder.Record: the metadata of a dispatch is absent.
- WebhookRecorder.WebhookRecorder.FlushPass: one pass is one step; its drain and its outcome with
  others in between are the runs of AuditBatches.
- Callbacks.ActionRoundTripIff: the keyed hash is any function whose text has no dot; that
  signatures cannot be forged is outside the model.
- Billing.WindowOverRuns: the set of users is fixed, times are whole seconds, and stored dates are
  well formed.
- Uptime.UptimeStore.RecordHeartbeat: one clock gives both the gap and the day.
- HTTP routing, JSON, migrations, authentication, rendering, collectors and the other probe kinds:
  plumbing and formatting.
- Network-rate alerts, tag queries, image-name classification and plan limits: they would add only
  easy members.

# GSLB control loop: a verified model

GSLB answers for a service through DNS: probes decide which backends are healthy, a reconciler decides which
addresses each service should publish, and a provider brings the DNS zone there. This project models that loop
and the stateful algorithms around it in Dafny, and proves what they keep over every call and every run.

`dafny verify dfyconfig.toml` checks everything.

## What is modelled

| module | models | main results |
|---|---|---|
| `StateMachine` | the in-memory health state machine | `HistoryDecides`, `FlapBound`, `FlapBoundIsTight` |
| `Scheduler` | how a probe result becomes a persisted health state | `Simulation`, `StatusesCoincideExactly` |
| `Failover` | the weighted choice of the reconciler | `JoiningTakesOverExactly`, `FailoverOrderIsStableSort` |
| `Reconciler`, `ReconcilerProperties` | one reconciliation, a pass over all configs, the cache | `PassIsolation`, `PassOrderIsIrrelevant`, `ErrorTellsOwnOutcome` |
| `Interleaving` | reconciliations of one config that overlap, step by step | `AgreeExactly`, `TwoDisagreeExactly` |
| `ControlLoop` | probe results, table edits, restarts and reconciliations in any order, deletions failing or not | `RunKeepsInvariants`, `SuccessExactly`, `PublishedIsVouched`, `WorkingPublishesAlways`, `RecoveryPublishes`, `QuietAfterSuccess` |
| `Provider`, `MockProvider` | what a DNS provider is asked for; the provider that replaces a name's records | the reference for upserts |
| `Cloudflare`, `UpsertProperties` | the set-diff upsert, one API call at a time, any call failing | `RetriesConverge`, `UpsertRefinesReplacement`, `NeverEmptyExactly`, `SuccessPublishesExactly` |
| `RepeatedRequests` | upserts of requests that name an address more than once | `CompletedIsDuplicateFreeExactly`, `AnyStaysBetween` |
| `HalfEdited` | the reconciler's cache over upserts that are cut off | `LastTouchDecides`, `SkippedIsRightExactly`, `OneFailureHalfEditsExactly` |
| `Selector`, `Arithmetic` | round-robin and weighted selection with 64-bit wrap-around | `WeightedFairExactly`, `RoundRobinFairExactly`, `IdleStayOutExactly` |
| `Aggregator` | probe history in buckets: record, drain, write | `Conservation`, `RowIsExactHistory` |
| `RateLimiter` | the sliding-window limiter | `PruningIsInvisible`, `RateBound`, `RefusedExactlyWhenFull`, `ClockMattersExactly` |
| `Engine` | the worker pool as freely interleaving steps | `PoolConservation`, `DeliveredInOrder`, `StopWaitsExactly`, `ShutdownIsBounded` |
| `RoleSync`, `RoleSyncProperties` | accounts and roles at login | `SyncExactly`, `HeldAfterLoginExactly`, `LastClaimDecides`, `FirstLoginHoldsDefaultExactly` |
| `Sorting`, `Types` | the sorted form of a list of addresses; shared entities | `SortedIsUnique` |

Objects the program updates in place are classes: the selectors, the state machine, the scheduler, the limiter,
the aggregator with its shared bucket objects, both providers, the reconciler, the user store and the login
service. Each method is proved against a function on values, and the theorems about runs are stated on those
functions. A failing store or provider call is an input of the operation: which configs, names, positions or
calls fail is arbitrary. Times are arguments, and Go's arbitrary map order is an arbitrary choice of the next
element.

## Assumptions of the run theorems

Where a guarantee of the code has a limit, the limit is a theorem too.

* A config's DNS name is unique (the tables say so) and does not change; what a
  rename does is `ReconcilerProperties.RenamedIsPublishedExactly`.
* Nobody else writes to the zone, and all configs resolve to providers of one zone. Which wrong zones get
  repaired is `ReconcilerProperties.RepairedExactly`.
* In `ControlLoop` upserts are all or nothing. `HalfEdited` runs the same cache over upserts cut off in the
  middle and says exactly when a reported success leaves the zone half edited; a single upsert is the subject of
  `Cloudflare`, `UpsertProperties` and `RepeatedRequests`.
* The reconciler swallows the error of a deletion. Failing deletions are part of every run;
  `ControlLoop.SuccessExactly` says exactly when they leave the zone wrong, `ControlLoop.NothingIsSwallowed`
  that they do not while deletions fail only for lack of a record, and `ControlLoop.RestartRepairs` that a
  restart of the reconciler puts it right.
* In `ControlLoop` one reconciliation of a config runs at a time. `Interleaving.AgreeExactly` says exactly when
  overlapping ones leave cache and zone in disagreement.
* The limiter's theorems take a clock that does not go back; `RateLimiter.ClockMattersExactly` says when that
  matters.
* The selectors' fairness is exact for calls that do not pass the counter's wrap, and past it under the
  conditions of `Selector.WeightedFairExactly` and `Selector.RoundRobinFairExactly`. The weights must add up to
  less than 2^64; what an overflowing total does to idle backends is `Selector.IdleStayOutExactly`.

## Where code and documentation disagree

The model follows the code.

* A comment in `internal/dns/reconciler.go:141` says a weighted config sticks with its active backend while that
  is healthy. A backend that returns with a smaller weight, or with the same weight further up the list, takes
  over at once (`Failover.JoiningTakesOverExactly`).
* Health checks configure how many failures are tolerated. The persisted status that decides publication is
  judged on the current streak alone, so with a tolerance above one a single failed probe still withdraws a
  healthy backend (`Scheduler.SingleFailureUnpublishes`); the state machine of `internal/health/state.go` would
  not.
* An unset threshold counts as 1 in the state machine and as 2 in the scheduler
  (`Scheduler.StatusesCoincideExactly`).
* The repository's README says every account gets the default role on first login. A claim that does not list
  it takes the role away in the same login, and an account whose first login stops before the assignment never gets
  it (`RoleSyncProperties.FirstLoginHoldsDefaultExactly`, `RoleSyncProperties.DefaultRoleIsNotRetried`).
* `Engine.Stop` is documented to wait for the running checks. It does iff it finds the engine running or every
  worker has returned already (`Engine.StopWaitsExactly`); a second call made meanwhile does not
  (`Engine.SecondStopDoesNotWait`).

## Model

| member | source | states |
|---|---|---|
| StateMachine.StateMachine.constructor | internal/health/state.go:22-28 | A new machine is unknown with an empty history. |
| StateMachine.StateMachine.ProcessResult | internal/health/state.go:39-78 | A result extends the history by itself; the fields stay the state that history determines. |
| StateMachine.StateMachine.Reset | internal/health/state.go:109-116 | A reset starts an empty history. |
| StateMachine.StreaksAreTrailingRuns | internal/health/state.go:45-75 | The two counters are the lengths of the runs of successes and of failures that end the history. |
| StateMachine.StatusIsLatestDecision | internal/health/state.go:45-75 | At every point of the history the status is v iff the most recent run that reached its threshold was of v. |
| StateMachine.UnknownIsUndecided | internal/health/state.go:45-75 | The status is unknown iff no run of either kind ever reached its threshold. |
| StateMachine.HistoryDecides | internal/health/state.go:39-78 | For every history and thresholds: counters are trailing runs, status is the latest decisive run or unknown. |
| StateMachine.StatusIsEarned | internal/health/state.go:49-75 | A machine is healthy only if some run of as many successes as configured, at least one, occurred, and unhealthy only if such a run of failures did. |
| StateMachine.StepIsPaidFor | internal/health/state.go:45-75 | A result that changes the status uses up a threshold's worth of pending results, and changes it only towards itself. |
| StateMachine.TransitionsArePaidFor | internal/health/state.go:30-38 | Transitions weighted by their thresholds, plus results pending towards the next, never exceed the results seen. |
| StateMachine.FlapBound | internal/health/state.go:30-38 | Hysteresis: over n results, transitions to healthy times their threshold plus those to unhealthy times theirs are at most n. |
| StateMachine.FlapBoundIsTight | internal/health/state.go:30-38 | For all thresholds and any number of rounds some history meets the flap bound with equality. |
| Scheduler.Scheduler.HandleResult | internal/health/scheduler.go:185-238 | A result counts its verdict in the probe history, if one is kept, and rewrites its backend's row, judged against the thresholds in force, and no other; no row when the write fails or the backend is gone. |
| Scheduler.Scheduler.UpdateState | internal/health/scheduler.go:191-237 | The part on the health state alone. |
| Scheduler.StateAfterIsPersistedStep | internal/health/scheduler.go:202-233 | Errors count as failures; a written result is one step of the persisted machine, and only a success moves the last-healthy time. |
| Scheduler.WrittenStateExactly | internal/health/scheduler.go:191-219 | Every field of the written state but the status, in terms of the row found, or of none, and the result. |
| Scheduler.InForceExactly | internal/health/scheduler.go:220-232 | The thresholds in force are those the check of the backend's own config sets, 2 where none is found or the number is not positive. |
| Scheduler.JudgedExactly | internal/health/scheduler.go:220-249 | Healthy iff the successes reach the threshold in force, unhealthy iff they do not and the failures reach theirs; with working lookups and positive numbers, those configured. |
| Scheduler.Simulation | internal/health/scheduler.go:201-249 | Over every history, persisted and in-memory counters agree and the persisted status is unknown or the in-memory one, unknown exactly while no current streak is long enough. |
| Scheduler.StatusesCoincideExactly | internal/health/scheduler.go:221-249 | The two statuses agree after every history iff both configured thresholds are 1. |
| Scheduler.InterruptedStreakIsForgotten | internal/health/scheduler.go:241-249 | After any history, a decided persisted status becomes unknown at the first result against it, or flips if one result decides; the state machine always keeps an answer. |
| Scheduler.SingleFailureUnpublishes | internal/health/scheduler.go:221-249 | With more than one failure tolerated, configured or by default, one failure still takes a healthy backend to unknown; the state machine says healthy in the first case and unhealthy in the second. |
| Failover.SelectWeighted | internal/dns/reconciler.go:178-197 | Selects the backend the specification calls primary, none from an empty list. |
| Failover.PrimaryIsFirstMinimum | internal/dns/reconciler.go:173-197 | A position is selected iff its weight, counted as at least 1, is no larger than any and smaller than every earlier one. |
| Failover.LosingStandbyKeepsSelection | internal/dns/reconciler.go:178-197 | Removing any backend that is not selected keeps the selected one. |
| Failover.JoiningTakesOverExactly | internal/dns/reconciler.go:178-197 | A backend inserted anywhere takes over iff its effective weight is smaller, or equal and it is listed first; else the selection stays. |
| Failover.FailoverOrderIsStableSort | internal/dns/reconciler.go:173-197 | Repeatedly losing the selected backend enumerates the list's stable sort by effective weight. |
| Failover.StableSortIsUnique | internal/dns/reconciler.go:173-197 | There is only one such order. |
| Sorting.SortStringsSorts | internal/dns/reconciler.go:244-245 | The form in which addresses are compared is a sorted rearrangement of them. |
| Sorting.LeqExactly | internal/dns/reconciler.go:244-245 | The order compares the first characters that differ, a string being below its extensions. |
| Sorting.SortedIsUnique | internal/dns/reconciler.go:244-245 | Two sorted lists of the same addresses are equal, so the comparison does not depend on the sorting algorithm. |
| Sorting.SameElementsSortAlike | internal/dns/reconciler.go:264-269 | Lists with the same addresses compare equal after sorting. |
| Reconciler.Reconciler.GetHealthyBackends | internal/dns/reconciler.go:200-234 | The enabled backends with a healthy state, in listing order; an error when either store call fails. |
| Reconciler.Reconciler.ExtractIPs | internal/dns/reconciler.go:237-247 | The sorted addresses that are not empty. |
| Reconciler.Reconciler.NeedsDnsUpdate | internal/dns/reconciler.go:250-272 | An update is needed iff the config is not cached or cached with another list. |
| Reconciler.Reconciler.UpdateDNS | internal/dns/reconciler.go:291-329 | New zone and cache: unchanged without a provider or after a refused upsert, else written, a failed deletion included. |
| Reconciler.Reconciler.NotifySelected | internal/dns/reconciler.go:149-154 | Calls the selection callback for each chosen backend in order. |
| Reconciler.Reconciler.ReconcileConfig | internal/dns/reconciler.go:129-171 | One reconciliation of a config as a step of cache, zone and outcome; the chosen backends are reported as selected whether it writes or not, unless they could not be read. |
| Reconciler.Reconciler.SetConfigReconcileError | internal/dns/reconciler.go:113-123 | Records the outcome of one config, unless the store fails. |
| Reconciler.Reconciler.ReconcileOnce | internal/dns/reconciler.go:103-126 | A pass is one turn per listed config, in listing order, with their selections, and reports no error for them; only a failed listing is its error, and then nothing changes. |
| Reconciler.OutcomeExactly | internal/dns/reconciler.go:129-171 | A reconciliation succeeds iff both reads work and there is no provider, nothing to publish, the list is cached, or the upsert is valid and works. |
| Reconciler.WrittenExactly | internal/dns/reconciler.go:291-329 | What a success leaves in zone and cache when the list was not cached, failing deletions included. |
| Reconciler.DesiredKeepsRepeats | internal/dns/reconciler.go:237-247 | The desired list names an address once for each chosen backend that has it, and no empty one. |
| Reconciler.SelectionsExactly | internal/dns/reconciler.go:149-154 | One reconciliation reports each chosen backend once, in order, and none when the backends could not be read. |
| Reconciler.PassSelectionsExactly | internal/dns/reconciler.go:103-126 | A pass reports exactly what its configs' reconciliations report. |
| ReconcilerProperties.WriteExactly | internal/dns/reconciler.go:291-329 | A cache entry, when written, agrees with the zone iff no deletion was swallowed, whatever was there before; a list that is not empty has the config's TTL. |
| ReconcilerProperties.NoWriteNoChange | internal/dns/reconciler.go:129-171 | A reconciliation that does not get as far as writing the cache, for an error or because nothing is needed, changes neither cache nor zone. |
| ReconcilerProperties.RepairedExactly | internal/dns/reconciler.go:159-162 | A wrong zone, however it came to be, is put right by a reported success iff the cache does not hold the desired list and no deletion is swallowed. |
| ReconcilerProperties.DesiredIgnoresListingOrder | internal/dns/reconciler.go:237-247 | The desired list depends on the chosen addresses only, not on their order. |
| ReconcilerProperties.TurnIsLocal | internal/dns/reconciler.go:111-123 | A config's turn depends only on its own cache entry, record and error field. |
| ReconcilerProperties.TurnLeavesOthers | internal/dns/reconciler.go:111-123 | A turn leaves every other config's cache entry and error field and every other name alone. |
| ReconcilerProperties.PassIsolation | internal/dns/reconciler.go:103-126 | After a pass each config's cache entry, record and error are as if it had been reconciled alone, whatever fails for the others. |
| ReconcilerProperties.ErrorTellsOwnOutcome | internal/dns/reconciler.go:111-123 | After a pass a config's error field is exactly the outcome of its own reconciliation. |
| ReconcilerProperties.PassOrderIsIrrelevant | internal/dns/reconciler.go:103-126 | For fixed failures a pass over the same configs ends in the same state in every order. |
| ReconcilerProperties.MatchingCacheHidesZone | internal/dns/reconciler.go:250-272 | With the desired list cached, a zone changed by anybody is never repaired and success is reported. |
| ReconcilerProperties.RenamedIsPublishedExactly | internal/dns/reconciler.go:250-272 | A config renamed to a name without records is published under it by a reported success iff the cache holds another list than the desired one; otherwise nothing changes, and the old name keeps what it had. |
| Interleaving.PlayIsSound | internal/dns/reconciler.go:250-329 | Over every schedule of overlapping reconciliations of a config, with unresolved providers, failing upserts and swallowed deletions, the zone shows the latest zone write, the cache holds the latest cache write, and each cache write follows its own zone write or swallowed deletion. |
| Interleaving.AgreeExactly | internal/dns/reconciler.go:250-329 | For any number of reconciliations, any failing calls and any schedule: once all have followed up their zone writes, cache and zone agree iff the latest writer of each wanted the same list; if only swallowed deletions wrote the cache, iff nothing was published before. |
| Interleaving.TwoDisagreeExactly | internal/dns/reconciler.go:250-329 | Two that swallow no deletion leave a disagreement iff their cache writes came in the other order than their zone writes and their lists differ. |
| Interleaving.DisagreementIsReachable | internal/dns/reconciler.go:307-326 | Whenever two find work to do, some schedule orders their writes that way. |
| Interleaving.DisagreementStays | internal/dns/reconciler.go:159-162 | While the list last cached is the desired one, no reconciliation repairs it. |
| Interleaving.AloneIsReconciled | internal/dns/reconciler.go:129-171 | A reconciliation whose three steps nothing interrupts is the reconciliation of the sequential model. |
| ControlLoop.RunKeepsInvariants | internal/dns/reconciler.go:129-329 | Over every run, deletions failing or not, a cached list is what the zone publishes under the config's name iff the last reconciliation to write the cache swallowed no deletion, and has the TTL of that write; health states tell exactly the results since they could last not be read. |
| ControlLoop.TtlFollowsExactly | internal/dns/reconciler.go:250-272 | After a success, in any run, a published list has the config's TTL iff this reconciliation wrote it or the last one to write it found the TTL the config has now. |
| ControlLoop.SkippedWriteWasNotNeeded | internal/dns/reconciler.go:159-162 | In every run, a write skipped because of the cache was not needed iff no deletion had been swallowed. |
| ControlLoop.SuccessExactly | internal/dns/reconciler.go:129-171 | In every run, right after a reconciliation reporting success the zone publishes exactly the desired list iff the last one to write the cache swallowed no deletion. |
| ControlLoop.NothingIsSwallowed | internal/dns/reconciler.go:303-311 | In runs whose deletions fail only for lack of a record, none is swallowed. |
| ControlLoop.WorkingPublishesWanted | internal/dns/reconciler.go:129-171 | In every run, a reconciliation with a provider, a positive TTL and working calls publishes exactly the wanted addresses, unless nothing is wanted and a deletion was swallowed before. |
| ControlLoop.WorkingPublishesAlways | internal/dns/reconciler.go:129-171 | So it does without that exception in every run whose deletions work, whatever else failed before. |
| ControlLoop.RestartRepairs | internal/dns/reconciler.go:29-40 | After a restart of the reconciler, which empties its cache, such a reconciliation publishes exactly the wanted addresses in every run, whatever was swallowed before. |
| ControlLoop.RecordedExactly | internal/health/scheduler.go:185-238 | What a result adds to the histories the theorems speak of: its verdict, and the threshold its backend's own check configures. |
| ControlLoop.HealthyAreVouched | internal/dns/reconciler.go:200-234 | In a reachable world the backends a config may publish are exactly the enabled ones whose last k results since their state could last not be read succeeded, k the threshold in force at the last. |
| ControlLoop.VouchedIsPersisted | internal/health/scheduler.go:191-237 | Each of them has k persisted successes in a row. |
| ControlLoop.EverythingIsRemembered | internal/health/scheduler.go:191-199 | In runs without failed state reads those are all persisted results, so k persisted successes in a row are exactly what it takes. |
| ControlLoop.HealthyInOrder | internal/dns/reconciler.go:213-231 | The list a config chooses from is its vouched backends in listing order. |
| ControlLoop.DesiredIsVouched | internal/dns/reconciler.go:129-157 | The desired addresses are exactly those of the vouched backends, or for a weighted config that of the first of least effective weight among them. |
| ControlLoop.PublishedIsVouched | internal/health/scheduler.go:185-249 | End to end: in every run, after a success that left no deletion swallowed, the published addresses are exactly those of the vouched backends, or of the weighted first among them. |
| ControlLoop.WantedIsPersisted | internal/health/scheduler.go:185-249 | Behind each of them is an enabled backend with k persisted successes in a row. |
| ControlLoop.RecoveryPublishes | internal/health/scheduler.go:185-249 | Whatever happened before, as many working successful checks as the backend's threshold and one reconciliation whose calls work publish an enabled backend of a config that publishes all. |
| ControlLoop.FailureUnpublishes | internal/health/scheduler.go:185-249 | Whatever happened before, one failed check and one reconciliation whose calls work withdraw an address no other backend of the config has, unless a deletion was swallowed. |
| ControlLoop.SelectedIsVouched | internal/dns/reconciler.go:149-157 | The backends reported as selected are the vouched ones, for a weighted config the first of least weight among them. |
| ControlLoop.TablesCanBeFilled | internal/db/migrations.go:11-33 | From the empty start a config with any name, its provider and its first backend can be entered. |
| ControlLoop.EditsGoThrough | internal/db/migrations.go:11-33 | In every run a config can be edited but for its name, and any backend be entered under it. |
| ControlLoop.ListingsAreSeparate | internal/dns/reconciler.go:103-126 | In every run a pass over any listing of live configs is possible: their names never collide. |
| ControlLoop.NothingIsOrphaned | internal/db/migrations.go:22-58 | In every run no health state outlives its backend and no backend its config, and listing gives every backend once. |
| ControlLoop.QuietWhileWanted | internal/dns/reconciler.go:159-162 | Once the wanted list is cached, no result, edit or reconciliation of any config, whatever fails, touches what the name publishes, as long as the same list is wanted and the reconciler is not restarted. |
| ControlLoop.QuietAfterSuccess | internal/dns/reconciler.go:159-162 | So it is from every success of every run on. |
| ControlLoop.SecondTimeIsQuiet | internal/dns/reconciler.go:159-162 | A second reconciliation right after a success, whatever fails in it, leaves the zone as it is. |
| ControlLoop.PassZoneIsDesired | internal/dns/reconciler.go:103-126 | After a full pass the same exact condition holds for every config that would succeed on its own. |
| Provider.ValidExactly | internal/dns/provider.go:55-73 | A request is valid iff it has a name, a positive TTL and addresses, none empty, and otherwise which defect is named. |
| MockProvider.MockProvider.UpsertRecord | internal/dns/mock.go:67-113 | Replaces the name's addresses and TTL, or rejects the request and changes nothing. |
| MockProvider.MockProvider.DeleteRecord | internal/dns/mock.go:116-139 | Removes the name; an error when it is empty or absent. |
| Cloudflare.CloudflareProvider.IndexByIP | internal/dns/cloudflare.go:70-81 | One listed record for every published address, whatever the listing order. |
| Cloudflare.CloudflareProvider.DeleteUnwanted | internal/dns/cloudflare.go:90-96 | Deletes the indexed records of unwanted addresses in any order, up to the first call that is not acknowledged. |
| Cloudflare.CloudflareProvider.PutRight | internal/dns/cloudflare.go:100-124 | One requested address: a call iff the listing misses it or has another TTL, and then its record is updated in place or a new one created. |
| Cloudflare.CloudflareProvider.EditRequested | internal/dns/cloudflare.go:99-124 | The turns of all requested addresses in order, repeated ones each time, up to the first call that is not acknowledged. |
| Cloudflare.CloudflareProvider.UpsertRecord | internal/dns/cloudflare.go:56-127 | For every request: success iff the acknowledged calls cover all deletions and turns, otherwise the zone is edited for exactly the calls made, deletions first. Without repeated addresses: exactly the wrong addresses are put right, or as many as calls took effect. |
| Cloudflare.LoopsEdit | internal/dns/cloudflare.go:89-124 | For a request without repeated addresses the two loops put right one wrong address per effective call and touch nothing else. |
| Cloudflare.CloudflareProvider.DeleteDNSRecord | internal/dns/cloudflare.go:160-168 | One deletion: acknowledged, answered "not found", or failed with or without effect. |
| Cloudflare.CloudflareProvider.DeleteRecord | internal/dns/cloudflare.go:130-172 | Removes all A records of the name and nothing else, passing over those another client has deleted since the listing; cut off, exactly as many of them as calls took effect; nothing to delete is a success. |
| Cloudflare.PublishedAfter | internal/dns/cloudflare.go:77-124 | Exactly which addresses are published after any partial edit, duplicates included. |
| Cloudflare.PublishedBetween | internal/dns/cloudflare.go:77-124 | At every cut-off the published addresses contain old and wanted, and lie within old or wanted. |
| Cloudflare.SuccessPublishesExactly | internal/dns/cloudflare.go:53-127 | A completed upsert publishes exactly the request iff no unwanted address was published by two records. |
| Cloudflare.SuccessTtlsExactly | internal/dns/cloudflare.go:77-124 | A completed upsert leaves every record of the name with the requested TTL iff the records the index passes over had it before. |
| Cloudflare.EditTouchesNothingElse | internal/dns/cloudflare.go:77-124 | Other names and types are untouched, and a retained address keeps its record ID. |
| Cloudflare.DistanceCounts | internal/dns/cloudflare.go:77-124 | The distance is the number of unwanted, missing and wrong-TTL addresses. |
| Cloudflare.EditKeepsDuplicateFree | internal/dns/cloudflare.go:77-124 | An edit, finished or not, introduces no duplicate. |
| Cloudflare.WrongAfter | internal/dns/cloudflare.go:77-124 | What is wrong after an edit is what was wrong before less what it put right. |
| UpsertProperties.AttemptProgress | internal/dns/cloudflare.go:70-124 | Every effective call lowers the distance by exactly one; an attempt succeeds iff it can list and its good calls cover the distance. |
| UpsertProperties.AttemptStaysBetween | internal/dns/cloudflare.go:89-124 | However an attempt ends, nothing wanted disappears and nothing unasked appears. |
| UpsertProperties.RetriesConverge | internal/dns/cloudflare.go:56-127 | Over any attempts, those that cannot list included, the distance left is the initial one less all effective calls, down to zero. |
| UpsertProperties.NothingWrongShowsRequest | internal/dns/cloudflare.go:53-127 | At distance zero the name's A records are the requested addresses, each with the requested TTL. |
| UpsertProperties.AgreementExactly | internal/dns/mock.go:67-113 | Agreeing with the replacing provider means publishing the same addresses under every name, with the same TTLs. |
| UpsertProperties.UpsertRefinesReplacement | internal/dns/mock.go:67-113 | A successful set-diff upsert leaves every name as replacement would, in exactly as many calls as addresses were wrong. |
| UpsertProperties.DeleteRefinesDeletion | internal/dns/mock.go:116-139 | Deleting all records of a name refines deleting its entry. |
| UpsertProperties.FailoverGap | internal/dns/cloudflare.go:89-124 | Replacing all addresses passes through a name without any: if creation then fails nothing is published. |
| UpsertProperties.GapIsReachable | internal/dns/cloudflare.go:89-124 | Such an attempt exists whenever nothing published is requested. |
| UpsertProperties.NeverEmptyExactly | internal/dns/cloudflare.go:53-127 | A name stays published in every attempt, whatever fails, iff the request retains one of the addresses published before. |
| UpsertProperties.DuplicateSurvives | internal/dns/cloudflare.go:77-81 | An unwanted address published twice is still published after a success. |
| RepeatedRequests.PutAllLeaves | internal/dns/cloudflare.go:98-124 | For any request the second loop creates one record per occurrence of a missing address, updates retained ones in place, and touches nothing else. |
| RepeatedRequests.CompletedIsDuplicateFreeExactly | internal/dns/cloudflare.go:98-124 | A completed upsert keeps a name free of duplicates iff every address it names more than once was published before. |
| RepeatedRequests.EnoughCallsComplete | internal/dns/cloudflare.go:89-124 | Given a working call for each address to delete and each one requested, any valid request succeeds and publishes exactly its addresses. |
| RepeatedRequests.AnyStaysBetween | internal/dns/cloudflare.go:89-124 | Whatever a request repeats and whatever fails, nothing wanted disappears and nothing unasked appears. |
| HalfEdited.RoundView | internal/dns/reconciler.go:291-329 | A reconciliation, skipped, failed or done, leaves each address it touched as asked and every other as it was. |
| HalfEdited.SuccessPublishesList | internal/dns/reconciler.go:311-326 | A reconciliation that wrote and succeeded publishes exactly its list, with its TTL, and remembers it. |
| HalfEdited.LastTouchDecides | internal/dns/reconciler.go:159-171 | Over every run of reconciliations with upserts and deletions cut off anywhere, each address is published as the last reconciliation to touch it asked. |
| HalfEdited.SkippedIsRightExactly | internal/dns/reconciler.go:250-272 | When the cached list is wanted again success is reported without a call, and the zone publishes that list iff the last touch of every address agrees with it. |
| HalfEdited.RunStaysBetween | internal/dns/cloudflare.go:89-124 | Over every such run, an address published and wanted throughout stays, and one never wanted does not appear. |
| HalfEdited.OneFailureHalfEditsExactly | internal/dns/reconciler.go:311-326 | After a failed upsert that drops a published address, the zone differs from before, with the cache unchanged, iff a call took effect. |
| HalfEdited.EmptySuccessIsReachable | internal/dns/reconciler.go:159-162 | From any site that publishes its cached list, a failed move to other addresses and the way back can end in a reported success that publishes nothing. |
| Selector.RoundRobinSelector.Select | internal/lb/selector.go:19-25 | Advances the counter and selects by its residue; nothing on an empty list. |
| Selector.WeightedSelector.Select | internal/lb/selector.go:32-69 | Advances the counter and selects what the prefix sums say, with the 64-bit wrap-around of total and offset. |
| Selector.SumWeights | internal/lb/selector.go:37-43 | The sum of the positive weights as it fits a signed 64-bit variable. |
| Selector.FindOffset | internal/lb/selector.go:56-68 | The first backend whose slice of the prefix sums ends beyond the offset. |
| Selector.ScanFindsOwner | internal/lb/selector.go:55-68 | For a good total the scan finds the backend whose slice holds the offset, never the fallback. |
| Selector.WeightedChoiceExact | internal/lb/selector.go:32-69 | With a total below 2^64, a backend is selected iff the counter's residue lies in its own slice; non-positive weights never are. |
| Selector.IdleStayOutExactly | internal/lb/selector.go:32-69 | For every list, whatever overflows: no count selects a non-positive weight iff the total is not 0 in its variable, or there is none. |
| Selector.NoWeightTakesTurns | internal/lb/selector.go:48-51 | Without a positive weight the weighted selector takes turns. |
| Selector.CountAfterMod | internal/lb/selector.go:23-24 | The counter after n calls, wrap included. |
| Selector.WeightedPicksAreHits | internal/lb/selector.go:32-69 | Picks of a backend over any calls are the counts whose residue falls into its slice. |
| Selector.WeightedFairness | internal/lb/selector.go:32-69 | n = qW + r calls pick a backend of weight w between q·w + max(0, w + r − W) and q·w + min(w, r) times. |
| Selector.RoundRobinFairness | internal/lb/selector.go:19-25 | n calls give every backend n / size turns or, with a rest, one more. |
| Selector.WeightedFairExactly | internal/lb/selector.go:32-69 | The fair share is met from every count and for any number of calls, wraps included, iff the total divides 2^64 or one backend has all the weight. |
| Selector.RoundRobinFairExactly | internal/lb/selector.go:19-25 | The same for round robin iff the number of backends divides 2^64. |
| Selector.HitsAcrossWrap | internal/lb/selector.go:23-24 | The unfinished round before the wrap and the new one after it serve the first residues twice. |
| Selector.WrapBreaksRoundRobin | internal/lb/selector.go:23-24 | An illustration: across the wrap three calls serve one of three backends twice. |
| Selector.OverflowSelectsWeightZero | internal/lb/selector.go:37-49 | An illustration: a total that overflows to zero puts a backend of weight 0 into rotation. |
| Arithmetic.WindowCountFair | internal/lb/selector.go:53-54 | Exact bounds on how many of n consecutive counts fall into a window of residues. |
| Aggregator.BucketFloor | internal/health/aggregator.go:44-46 | The bucket start is aligned and its bucket contains the time. |
| Aggregator.BucketFloorUnique | internal/health/aggregator.go:44-46 | It is the only such start. |
| Aggregator.UpsertAdds | internal/store/health_history.go:13-26 | Writing a bucket adds its counts and flag to one row and changes no other. |
| Aggregator.Aggregator.GetOrCreateBucket | internal/health/aggregator.go:73-80 | The bucket object of the key, created empty if absent, shared with nobody. |
| Aggregator.Aggregator.RecordProbe | internal/health/aggregator.go:49-61 | Counts one probe in the bucket its time floors to. |
| Aggregator.Aggregator.RecordSelection | internal/health/aggregator.go:64-71 | Sets the flag of the bucket its time floors to. |
| Aggregator.Aggregator.DrainBuckets | internal/health/aggregator.go:114-126 | Takes out every bucket but the current one, the drained objects no longer reachable from the live map. |
| Aggregator.Aggregator.WriteBucket | internal/health/aggregator.go:128-147 | Adds one drained bucket to its row, or drops it when the write fails. |
| Aggregator.Aggregator.Flush | internal/health/aggregator.go:114-148 | A pass drains and then writes every drained bucket once, in some order. |
| Aggregator.WriteMoves | internal/health/aggregator.go:128-147 | A write moves exactly one bucket's counts and flag to the row or to the lost ones. |
| Aggregator.FlushMovesEachBucketOnce | internal/health/aggregator.go:112-148 | An undisturbed pass keeps the current bucket and moves every other one once into its row unless its write fails. |
| Aggregator.Conservation | internal/health/aggregator.go:49-148 | Over every interleaving, memory + drained + stored + lost counts equal the probes whose time floors there; some flag is set iff a selection fell there. |
| Aggregator.ProbesInExactly | internal/health/aggregator.go:44-61 | The probes counted for a bucket are those of its backend and outcome within its five minutes. |
| Aggregator.StoredIsWhatWasWritten | internal/store/health_history.go:13-26 | A row is the sum of what its successful writes carried, its flag the disjunction of their flags. |
| Aggregator.RowIsExactHistory | internal/health/aggregator.go:112-148 | Without failed writes, a row with nothing pending is the exact count of its probes and selections. |
| RateLimiter.Prune | internal/handlers/routes.go:40-45 | Keeps exactly the times after the cutoff, in order. |
| RateLimiter.RateLimiter.Allow | internal/handlers/routes.go:33-54 | Decision and new log of one request. |
| RateLimiter.RateLimiter.Cleanup | internal/handlers/routes.go:61-77 | Prunes every address's times and drops addresses without any, in any order. |
| RateLimiter.AfterExactly | internal/handlers/routes.go:40-45 | Pruning keeps every time after the cutoff, as often as it was there, and nothing else. |
| RateLimiter.OnlyRecentAreHeld | internal/handlers/routes.go:40-77 | A decision leaves no time of its address that is out of the window, a cleanup none at all and no address without one. |
| RateLimiter.Bisimulation | internal/handlers/routes.go:33-78 | Over every run with a clock that does not go back, the pruned log decides as one that keeps all admissions, and agrees with it on all that can still matter. |
| RateLimiter.AdmittedIsRecorded | internal/handlers/routes.go:33-54 | What the limiter itself admits is what that reference records. |
| RateLimiter.PruningIsInvisible | internal/handlers/routes.go:56-78 | Every decision is that of the full history, and removing all cleanup ticks changes none. |
| RateLimiter.AdmittedIsSpaced | internal/handlers/routes.go:33-54 | The limiter's admissions of an address that are limit places apart are at least a window apart. |
| RateLimiter.RateBound | internal/handlers/routes.go:13-54 | The limiter admits at most limit requests of an address in any half-open interval as long as the window. |
| RateLimiter.CountInExactly | internal/handlers/routes.go:40-47 | What the bound counts are the admissions in the interval. |
| RateLimiter.RefusedExactlyWhenFull | internal/handlers/routes.go:33-54 | A request is refused iff the limiter has admitted limit requests of its address in (now − window, now]. |
| RateLimiter.ClosedIntervalBoundExactly | internal/handlers/routes.go:42 | The bound extends to closed intervals as long as the window iff the limit or the window leaves nothing to admit in them. |
| RateLimiter.ClockMattersExactly | internal/handlers/routes.go:61-77 | Without the assumption on the clock, pruning is invisible in all runs iff nobody is ever admitted. |
| Engine.StepConserves | internal/health/engine.go:45-149 | Every step of a worker, a submitter, a consumer, Start or Stop keeps the balance of accepted requests. |
| Engine.PoolConservation | internal/health/engine.go:26-149 | Over all interleavings accepted = executing + buffered + consumed + discarded; the running pool has the configured number of workers, or 4, all of them in it; executing ≤ workers, buffered ≤ 10 · workers, and results answer distinct accepted requests. |
| Engine.DeliveredInOrder | internal/health/engine.go:112-149 | Over all interleavings the channel holds the results sent and not yet read, oldest first, each with the verdict of its own check for the request its worker took; what was accepted, read and lost is what the steps say. |
| Engine.NoneAbandonedWhileRunning | internal/health/engine.go:80-96 | Until Stop, every request submitted since Start is waiting or accepted. |
| Engine.RequestCanBeAnswered | internal/health/engine.go:80-149 | While a worker is idle and the channel has room, a submitted request can be taken, checked and answered with either verdict, leaving everything else as it was. |
| Engine.ResultCanTimeOut | internal/health/engine.go:140-148 | With the channel full its result can be given up, and the worker is idle again. |
| Engine.ResultCanBeRead | internal/health/engine.go:98-102 | The oldest waiting result can be read at any time. |
| Engine.NothingLostWithRoom | internal/health/engine.go:140-148 | While the result channel always has room and the engine runs, no request is discarded. |
| Engine.NothingAfterStop | internal/health/engine.go:64-78 | Once Stop has returned nothing executes and nothing is accepted, whatever happens next short of a new Start. |
| Engine.ShutdownStep | internal/health/engine.go:104-148 | After cancellation every step but a refused call uses up a bound on what is left to do. |
| Engine.ShutdownIsBounded | internal/health/engine.go:64-78 | From cancellation on only a bounded number of steps can be taken. |
| Engine.ShutdownNeverStuck | internal/health/engine.go:64-78 | While Stop waits, a worker can move or Stop can return. |
| Engine.StopWaitsExactly | internal/health/engine.go:64-78 | In every reachable state, a Stop call made there returns only with all workers gone iff it finds the engine running or they were gone already. |
| Engine.StopCanReturn | internal/health/engine.go:64-78 | Every Stop call can return. |
| Engine.SecondStopDoesNotWait | internal/health/engine.go:64-78 | An illustration: a second Stop call returns at once, with a check still under way. |
| RoleSync.UserStore.GetUserRoles | internal/store/user.go:160-186 | Lists each role the user is assigned, by name and ID, and no other. |
| RoleSync.OidcService.CurrentByName | internal/auth/oidc.go:342-346 | The map from the names of the held roles to their IDs. |
| RoleSync.OidcService.AddMissing | internal/auth/oidc.go:352-362 | Assigns the claimed known roles not held, wherever lookup and assignment work. |
| RoleSync.OidcService.RemoveStale | internal/auth/oidc.go:347-370 | Removes the held roles not claimed, in any order, except where removal fails. |
| RoleSync.OidcService.SyncRoles | internal/auth/oidc.go:336-373 | The resulting assignments in one step, or nothing when the roles cannot be read. |
| RoleSync.OidcService.SyncUser | internal/auth/oidc.go:278-331 | The tables after a login with any failing calls; disabled users are rejected without a change; a login signs in iff no call outside the loops of syncRoles fails, and returns the stored account and the roles assigned to it. |
| RoleSyncProperties.SyncedNames | internal/auth/oidc.go:336-373 | In terms of names the sync leaves the specified set, and other users' roles alone. |
| RoleSyncProperties.SyncExactly | internal/auth/oidc.go:333-373 | The roles are exactly the requested known ones iff every missing one was assigned at some position and no stale one resisted. |
| RoleSyncProperties.SyncIsReplacement | internal/auth/oidc.go:333-373 | When the store works, syncing equals replacing, for every claim, order and prior state. |
| RoleSyncProperties.SecondSyncIsIdle | internal/auth/oidc.go:336-373 | With the same failures a second sync changes nothing. |
| RoleSyncProperties.SyncNeverStraysFurther | internal/auth/oidc.go:336-373 | Whatever fails, no requested role is lost, none unrequested gained, no repair undone. |
| RoleSyncProperties.LoginIsLocal | internal/auth/oidc.go:278-331 | Every login keeps the tables consistent and changes no other account and nobody else's roles; its own user's roles become the specified ones. |
| RoleSyncProperties.AccountsExactly | internal/auth/oidc.go:284-311 | All accounts after any login: the e-mail and name given under its subject, an old account keeping its identifier and a new one active under the generated one; nothing for a rejected or failing one. |
| RoleSyncProperties.ProfileIsStored | internal/auth/oidc.go:289-311 | A completed login leaves an active account with the e-mail and name it came with. |
| RoleSyncProperties.HeldAfterLoginExactly | internal/auth/oidc.go:296-373 | Role by role, which are held after a login that gets as far as its claim, whatever fails in the sync. |
| RoleSyncProperties.LoginsCanHappen | internal/auth/oidc.go:278-331 | From empty tables on, every run of logins keeps the tables consistent and can go on with any known subject or unused identifier. |
| RoleSyncProperties.EmptyClaimsChangeNoRoles | internal/auth/oidc.go:296-300 | Any run of logins, those of a user all with empty claims, leaves that user's roles unchanged. |
| RoleSyncProperties.LastClaimDecides | internal/auth/oidc.go:278-331 | After a claim that went through and any logins without one, the user holds exactly the claimed roles that exist. |
| RoleSyncProperties.FirstLoginHoldsDefaultExactly | internal/auth/oidc.go:305-328 | A first login ends with the default role iff assigning it worked and the claim does not take it away. |
| RoleSyncProperties.DefaultRoleIsNotRetried | internal/auth/oidc.go:313-322 | After a first login that stopped at the default role, logins without a claim succeed with no role at all. |

## Left out

- UpsertProperties.UpsertRefinesReplacement: about requests that name no address twice; `RepeatedRequests` says what the others do.
- HalfEdited.LastTouchDecides: about names without duplicates and requests that name no address twice.
- Engine.NothingAfterStop: a Start after Stop, which the code accepts with its context cancelled for good, is not a step; one lifetime is modelled.
- ReconcilerProperties.PassIsolation: configs reach the provider one after the other, as in the code; the zone behind all of them is one.
- Engine: modelled on values as steps, not as an imperative class, because its goroutines interleave; the check itself is an arbitrary verdict, and Start after Stop is not a step.
- RoleSync.UserStore.CreateUser: a generated identifier is assumed to be unused, and two first logins of one subject at the same time are not modelled.
- ControlLoop: deleting a config keeps its DNS records and cache entry as the code does, and IDs are never reused; the per-config provider type is reduced to whether a provider resolves.
- Aggregator: the bucket in memory when the program stops is dropped by the code; the shutdown flush is one more pass of the model. Retention deletes rows and is not a step.
- Probing over ICMP and TCP, hostname resolution, timers and tickers: a check is an arbitrary result, a tick an arbitrary step.
- Logging, metrics and audit records; what is done with the selections reported to the callback.
- Zone IDs and the mock's creation and update times: each provider works on its own zone.
- SQL, migrations, sessions, tokens, encryption, HTTP handlers and the frontend: plumbing, or libraries that are not part of this model.
- Signed overflow of counters other than the selectors' (streaks, bucket counts): they would take years of probes.
- `internal/lb/selector.go:72-89` and `CheckScheduler` in `internal/health/engine.go`: only easy members.
- Restarting the scheduler and the engine: the scheduler's state is in the tables, and of the engine one lifetime is modelled.

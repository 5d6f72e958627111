# Verified model of the proxy's release, health and durability state machines

The project models, in Dafny, the parts of the proxy and its controller that keep state or decide
something from text, and proves what they promise:

* **Progressive rollout** (`Percentile`, `RolloutPolicy`, `RolloutWindow`, `RolloutMachine`,
  `RolloutState`, `RolloutSelection`, `StageSelection`, `RolloutRegistry`). `RolloutMachine` is the specification: it keeps
  the whole log of accepted samples and judges it by cutting and sorting. `RolloutState.State` is the
  engine: a window pruned in place with incremental totals, a cursor and a latch. Every method of the
  class is proved to take the machine's step; claims over whole runs are proved of the machine.
* **Backend health** (`EndpointHealth`, `ResultInterleavings`, `EjectionThreshold`, `SelectionCache`, `BackendPool`).
  `ResultInterleavings` takes every access of recordings, verdicts and readiness tests as a step, the
  unlocked flag read included. `SelectionCache` splits them at the points a selection can see, writing
  readiness, moving the revision, storing the flag, and interleaves them with time, refreshes and scans.
  `BackendPool` is the pool as a class over shared state objects.
* **Durable history** (`Journal`, `JournalCrash`). Eviction, ordered I/O steps, and arbitrary runs of
  records, failed writes, process restarts and power losses.
* **Fleet agreement** (`FleetView`, `FleetDigest`). Replica classification, convergence, pooled samples,
  and the cleaning of trees before digesting.
* **Parsers and selectors** (`ProxyProtocol`, `Timeouts`, `Compression`, `Identity`, `TlsNames`), over the
  text functions in `Text`.

Where a class or a loop is proved equal to a specification function, other lemmas say what that function means in
the caller's terms, without naming it: which completions count, after how many failures an endpoint is ejected,
how much of the traffic a stage sends where, when a lookup is due, what a journal is charged for, and so on.

`Suffixes` and `Counting` hold the two concepts several parts share: cutting a log to its longest
acceptable suffix, and counting.

Time is an integer supplied by the caller on a clock that does not go back (nanoseconds or seconds as the
source uses). Outside the two modules just named a locked section is a single step; the atomic flag and
counters are sequentially consistent. Error thresholds are stated by repeated addition (`Multiple`), so that the
engine's products are compared with something other than themselves.

## Where the code does not do what it seems to promise

* **A revision reported recorded may not be what the next start begins with.** If a process dies after renaming
  the journal but before syncing the directory, its successor reads the renamed journal; recording the same
  version is then taken for a repetition and reported successful without any I/O, and a power loss may bring the
  older journal back, as in the run `JournalCrash.RepeatedRecordMayBeLost`. `JournalCrash.SuccessIsDurableIff`
  says exactly when a reported success is what every later start begins with: for a repetition when no rename is
  awaiting its directory sync, for a write when the revision fits the budgets alone.
* **A certificate may cover an ingress name but not the hosts it wins.** This happens exactly for names that
  are `*.` followed by nothing but dots: a certificate for `*` covers `*.`, and the entry wins `a.`.
  `TlsNames.CoverageIffNotDegenerate` states the equivalence, `TlsNames.DegenerateWildcardFails` the example.
  Such a name can only come from the TLS hosts of an Ingress, which this code does not validate
  (src/ingress/mod.rs:1052-1063); the Kubernetes API's own validation would normally refuse it first.
* **An ejected endpoint may still be chosen for a moment.** A recording writes the cooldown before it moves the
  revision, and a request reads the revision without the health lock, so in between it may reuse a selection
  that names the endpoint. `SelectionCache.UnbumpedEjectionIsMissed` is the run; by
  `SelectionCache.ReusedSelectionIsCurrentIff` a reusable selection is the one a fresh scan would make exactly
  when no change of whether an entry may be chosen is between its write and its bump.
* **The version 1 reader accepts lines of 108 bytes**, one more than section 2.1 of the HAProxy PROXY
  protocol specification allows. `ProxyProtocol.UnknownLineAccepted` gives such lines, and
  `ProxyProtocol.AcceptedLineLength` says exactly when an accepted line is within the limit; every printed TCP4
  or TCP6 line is (`ProxyProtocol.PrintedLineLength`).
* An enabled request budget refuses an explicitly disabled (zero) backend budget;
  `Timeouts.AcceptedBudgetsOrdered` states the exact acceptance condition.
* The eviction loop ends with an empty journal when the newest revision alone is too large
  (`Journal.NewestRetained`); bundles that compile never are (`Journal.CompiledBundleFits`).

## Model

| member | source | states |
|---|---|---|
| Percentile.CountingDecidesP95 | src/rollout.rs:323-326 | For every collection of samples and every sorted arrangement of it, the nearest-rank p95 exceeds the limit exactly when more than a twentieth of the samples (rounded down) do. |
| RolloutWindow.TotalsDecideTrips | src/rollout.rs:318-326 | The engine's arithmetic on count, errors and slow agrees with the thresholds stated on the window itself, the latency one by sorting. |
| RolloutWindow.ErrorTripIsShare | src/rollout.rs:318-323 | The error threshold is the percentage of failed samples in the window. |
| RolloutWindow.TripBoundaries | src/rollout.rs:319-327 | One sample fewer than required never trips; just enough do when all failed or all were slow; none do without a failed or slow one. |
| RolloutWindow.WindowKeeps | src/rollout.rs:165-170 | A window is kept whole exactly with at most 10000 samples, none a full second older than the configured seconds. |
| RolloutWindow.AgeIsWholeSeconds | src/rollout.rs:168 | Age counts whole seconds, none for an instant to come. |
| RolloutWindow.Window.Prune | src/rollout.rs:163-177 | In-place front eviction leaves the longest suffix with acceptable ages and length, and totals equal to a recount; no counter underflows. |
| RolloutWindow.Window.Push | src/rollout.rs:312-317 | Counting a sample and pruning gives the cut of the grown window and its recount. |
| RolloutWindow.WindowAbsorbs | src/rollout.rs:163-177 | Cutting at an earlier time and again later, with samples added between, equals one cut of everything at the later time. |
| Suffixes.LongestFitIsLongest | src/rollout.rs:164-176 | Dropping from the front until the rest fits leaves the longest of all fitting suffixes. |
| RolloutState.State.Completed | src/rollout.rs:291-338 | Takes exactly the specification machine's step, which judges the whole log of accepted samples; after an accepted sample the window is the cut of the log and the totals its recount. |
| RolloutState.State.Accept | src/rollout.rs:308-337 | Trips, latches and names the reason exactly when the window of the whole log meets the thresholds. |
| RolloutState.State.SampleReport | src/rollout/progress.rs:40-66 | Reports a recount of the log as cut now, under a key made of the release, its policy and the stage in force, leaving log, latch and stage alone. |
| RolloutState.State.SyncProgress | src/rollout/progress.rs:83-112 | Which records are adopted, disregarded or refused; a new stage or start time forgets the samples, the same ones keep them, and nothing releases the latch; the stage in force is always one the policy has. |
| RolloutState.ProperRecords | src/rollout/progress.rs:91-98 | A record is proper exactly for a stage the policy has, or the only one, a start that is not negative, and no approval of a missing stage. |
| RolloutState.State.ForceRollback | src/rollout.rs:243-249 | Latches with the reason "persisted rollback" exactly when there is a rollback rule. |
| RolloutState.State.Enforce | src/rollout.rs:236-242 | A latched release turns every backend into the fallback, for which a rule always exists; otherwise the backend stays. |
| RolloutState.State.SelectAt | src/rollout.rs:253-290 | A latched release yields the fallback; otherwise the decrementing scan finds the owner of the slot and never runs past the last target. |
| RolloutState.State.Select | src/rollout.rs:250-252 | Draws one cursor value modulo 2^64, changes nothing else, and selects by it. |
| RolloutMachine.LatchedIffBreached | src/rollout.rs:236-338 | In any run a release is latched exactly when some call breached the thresholds or forced it; until then its log is the log computed without regard to rollback. |
| RolloutMachine.ReturnsTrueAtFirstBreach | src/rollout.rs:291-338 | `completed` returns true exactly at the first breach of a run not forced before. |
| RolloutMachine.ReturnsTrueAtMostOnce | src/rollout.rs:291-338 | It never returns true twice in one run. |
| RolloutMachine.LatchIsOneWay | src/rollout.rs:236-338 | A latched release stays latched through any further calls and always has a rollback rule to fall back on. |
| RolloutMachine.UncountedHasNoEffect | src/rollout.rs:291-307 | Removing a fallback, unknown-backend or other-stage completion from any run changes nothing about the rest, and it returned false. |
| RolloutMachine.UncountedKeepsReturns | src/rollout.rs:291-307 | Nor does it change what any later call returns. |
| RolloutMachine.OtherCompletionsAreIgnored | src/rollout.rs:291-307 | A completion by the fallback's backend, by no declared backend, of another stage or under no rule leaves the rest of any run and all returns as if it had not happened. |
| RolloutMachine.CandidateCompletionsCount | src/rollout.rs:291-338 | Every other completion of an unlatched release appends its sample, and latches, returning true, exactly when the window of the log then meets the thresholds. |
| RolloutMachine.ProgressForgetsSamples | src/rollout/progress.rs:101-111 | In any run a new stage or start time forgets the samples, the same ones keep them, and the latch stays. |
| RolloutPolicy.StageTotalBounds | src/rollout.rs:55-133 | Every accepted policy has at every stage a total weight from 1 to 80000, so selection never divides by zero. |
| RolloutSelection.CohortPrefix | src/rollout.rs:264-288 | A cohort hash lands among the first j targets exactly when hash times total is below 10000 times their weight. |
| RolloutSelection.CohortShare | src/rollout.rs:264-288 | Each target owns within one of 10000 * weight / total of the 10000 buckets. |
| RolloutSelection.StageChangeKeepsCohort | src/rollout.rs:262-288 | A stage that does not lower a prefix's share, whatever the totals, moves no client out of that prefix. |
| RolloutSelection.RoundRobinExact | src/rollout.rs:280-288 | Any total consecutive cursor values reach each target exactly weight times, so zero-weight targets never. |
| StageSelection.RoundFollowsStage | src/rollout.rs:262-289 | Without a cohort, over as many consecutive cursor values as the weights in force sum to, each backend is chosen exactly as often as the stage gives it, or as declared when there is no such stage. |
| StageSelection.CohortsFollowStage | src/rollout.rs:262-289 | With a cohort each backend gets within one of the share of the 10000 buckets the stage gives it, whatever the cursor. |
| RolloutRegistry.Rollouts.GetFor | src/rollout.rs:196-227 | Keeps exactly the held or requested keys, returns the existing object if there is one, else a fresh release state. |
| RolloutRegistry.HeldStateSurvives | src/rollout.rs:210-226 | Over any run of lookups, a release held or asked for at each of them keeps its object and so its latch. |
| EndpointHealth.FastPathRefinesLocked | src/backend.rs:134-161 | With the unlocked test in front, health, answer and revision change are those of the fully locked version, and a false flag stays truthful. |
| EndpointHealth.BumpIffCooldownChanges | src/backend.rs:141-161 | Recording moves the revision exactly when a cooldown appears or disappears, and answers true exactly when one appears. |
| EndpointHealth.EndpointState.RecordResult | src/backend.rs:134-161 | The in-place update equals the fully locked reference. |
| EndpointHealth.EndpointState.SetActiveHealth | src/backend.rs:163-169 | Stores the verdict and moves the revision exactly when it changes. |
| ResultInterleavings.Linearizable | src/backend.rs:134-169 | Every interleaving of any number of recordings, verdicts and readiness tests has a sequential order of locked calls with the same answers and, when the lock is free, the same health. |
| ResultInterleavings.RealTimeOrder | src/backend.rs:134-161 | That order puts a call that had finished before another began first. |
| ResultInterleavings.EjectionBalance | src/backend.rs:141-160 | In any legal order, ejections answered minus cooldowns cleared is 1 while ejected and 0 otherwise. |
| EjectionThreshold.EjectsAtThreshold | src/backend.rs:141-160 | In any legal order a failed result ejects exactly when no cooldown is in force and the failures since the last success or expiry, this one included, number at least its threshold. |
| EjectionThreshold.CooldownIsInForce | src/backend.rs:146-157 | The cooldown recorded is that of the last ejection not lifted by a success or by a readiness test after its end. |
| EjectionThreshold.FailuresSinceReset | src/backend.rs:145-153 | The failures recorded are those counted since the last success or expiry, up to the counter's width. |
| EjectionThreshold.StreakExists | src/backend.rs:145-153 | Every call has a last success or expiry before it, or the beginning, to count from. |
| EjectionThreshold.ReadyAnswers | src/backend/selection.rs:127-150 | A readiness test accepts exactly an entry with weight, under no running cooldown, with a good last verdict where verdicts are required. |
| EjectionThreshold.VerdictIsLast | src/backend.rs:163-169 | The verdict recorded is the last one given. |
| EjectionThreshold.ScanTestIsReady | src/backend/selection.rs:127-150 | The test made by a scan answers so, and shortens the selection's life exactly to the end of a running cooldown. |
| EjectionThreshold.EligibleIsReady | src/backend/selection.rs:127-150 | An entry is eligible exactly when such a test would accept it. |
| ResultInterleavings.OrderStep | src/backend/selection.rs:127-150 | Every atomic step, those of a readiness test with its zero-weight, unlocked and verdict branches included, only extends the order and keeps it a legal order of exactly the calls in effect. |
| SelectionCache.ReusedSelectionIsSettled | src/backend/selection.rs:70-80 | After any run of recordings and verdicts in steps, refreshes, time and scans, a selection that may be reused is the one a scan would make if every change took effect when it moves the revision. |
| SelectionCache.ReusedSelectionIsCurrentIff | src/backend/selection.rs:70-80 | It is the one a fresh scan of memory would make now exactly when no recording or verdict between writing readiness and moving the revision has changed whether some entry may be chosen. |
| SelectionCache.ReusedSelectionIsCurrent | src/backend/selection.rs:70-80 | In particular whenever none is between the two. |
| SelectionCache.UnbumpedEjectionIsMissed | src/backend.rs:155-158 | A run that stops between the two, where the reusable selection still names the ejected endpoint. |
| SelectionCache.ContinuedSettles | src/backend.rs:141-169 | Each step of a lock holder moves the settled verdict exactly when it moves the revision, and the lock is released on the record the whole locked operation would give. |
| SelectionCache.ScanNextKeepsValid | src/backend/selection.rs:22-28 | Testing the next entry, with or without the lock, keeps every partial and cached selection truthful, however the health changed since the scan began. |
| SelectionCache.RevisionCountsChanges | src/backend.rs:141-169 | Outside scans the revision moves, by one, exactly when some settled cooldown's presence or verdict changes. |
| SelectionCache.ScanDropsOnlyExpired | src/backend/selection.rs:136-147 | A scan changes health only by dropping cooldowns that have run out, without moving the revision. |
| BackendPool.LookupsApart | src/backend.rs:281-353 | Over any run of turns two lookups are at least a second apart, five seconds when the first did not succeed, and otherwise no earlier than its first answer lapsed. |
| BackendPool.NextLookupDue | src/backend.rs:283-346 | After a turn with a lookup, the next is due exactly once an answer has lapsed or an hour is over but not within a second, or five seconds on when the turn did not resolve everything. |
| BackendPool.UntilIsEarliest | src/backend.rs:306-317 | The expiry taken is at most an hour ahead and at most that of every looked-up answer, and is one of these. |
| BackendPool.DueOnlyWhenNeeded | src/backend.rs:285-296 | Lookups are due only for host names and probes only with a health check, each from its booked instant on. |
| BackendPool.ProbesApart | src/backend.rs:283-303 | Two rounds of probes are at least the configured interval apart. |
| BackendPool.NextProbesDue | src/backend.rs:291-302 | After a round of probes the next is due from exactly one interval later on. |
| BackendPool.Backend.Maintain | src/backend.rs:281-353 | One turn moves the schedule those lemmas are about, yields exactly the resolved addresses after a successful lookup, and after a failed one leaves no endpoint last confirmed more than a minute ago. |
| BackendPool.Backend.Current | src/backend/selection.rs:70-80 | A reusable selection is used untouched; otherwise the scan caches exactly the entries that may be chosen, under the revision read first, to lapse before any of their running cooldowns. |
| BackendPool.Backend.EligibleExactly | src/backend/selection.rs:22-28 | What a scan keeps is exactly the entries a readiness test would accept. |
| BackendPool.Backend.Reserve | src/backend/selection.rs:152-168 | A lease is refused exactly when the limit is reached; the backend's count always equals the leases outstanding, and each endpoint's count those on it, even after it has left the pool. |
| BackendPool.Backend.ApplyDns | src/backend.rs:328-353 | A refresh yields exactly the resolved addresses in order, keeps the state object of every retained one, drops the cached selection; a failed one keeps everything for 60 seconds and then empties the pool. |
| BackendPool.Backend.Collect | src/backend.rs:304-327 | The lookup loop yields the union of all origins, or failure when one cannot be resolved, and the earliest expiry. |
| BackendPool.GatheredIsUnion | src/backend.rs:308-326 | An address is gathered exactly when some origin names it, with the weight of the last one that does. |
| BackendPool.AllAnswersAreGathered | src/backend.rs:308-326 | Exactly the literal addresses and all addresses of the answers are gathered, once every origin is literal or answered. |
| BackendPool.LastStateIsLast | src/backend.rs:330-334 | The state kept for an address is that of its last present entry. |
| BackendPool.Backend.RecordResult | src/backend.rs:238-250 | Exactly the first endpoint with the address records the result; an unknown address changes nothing. |
| BackendPool.Backend.Release | src/backend.rs:179-185 | Dropping a lease takes back exactly that one from both counts. |
| BackendPool.Backend.Observe | src/backend.rs:256-280 | The summary counts exactly the ejected, unready and eligible entries and the leases outstanding, with the age of the last refresh. |
| BackendPool.SummaryExplains | src/backend.rs:272-277 | An entry is counted eligible exactly when a readiness test would accept it, and otherwise lacks weight, is ejected or unready. |
| BackendPool.Backend.RecordsExactly | src/backend.rs:271-273 | The records summarised are those of every entry, in order. |
| Journal.RetainedAbsorbs | src/history.rs:118-135 | Evicting after every record equals one cut of the whole log under all three budgets. |
| Journal.RetainedIsLongest | src/history.rs:118-135 | A suffix of the log is within all three budgets exactly when it is no longer than what is retained. |
| Journal.RetainedByCount | src/history.rs:118-135 | What is retained has at most 9 revisions, any of them chosen have at most 32 MiB of assets and 8 MiB of configuration, and one revision more would exceed a budget. |
| Journal.BytesAreSums | src/history.rs:119-131 | A journal is charged the sum of all its asset sizes laid end to end, and of all its configuration sizes. |
| Journal.SumConcat | src/history.rs:122-124 | A sum counts a single size as itself and adds over concatenation. |
| Journal.RepeatsIsNewest | src/history.rs:112-117 | Only the last version of the journal is a repetition. |
| Journal.NewestRetained | src/history.rs:114-135 | The newest revision is kept exactly when it fits alone; otherwise the journal is empty. |
| Journal.RestoreYieldsRecorded | src/history.rs:97-105 | For increasing versions, restoring compiles the bundle recorded under each retained version and fails for the others. |
| Journal.CompiledBundleFits | src/config/bundle.rs:99-103 | A bundle within the compiler's limits fits alone. |
| Journal.History.Evict | src/history.rs:118-135 | The loop ends for every input with exactly the longest affordable suffix. |
| Journal.History.Record | src/history.rs:106-150 | Journal, disk and answer for every number of I/O steps that succeed, including the missing bundle and the repeated version. |
| Journal.History.Persist | src/history.rs:140-149 | The ordered steps, stopped at the first that fails, produce exactly that prefix's disk. |
| Journal.History.Open | src/history.rs:66-93 | Opens exactly whole, short and small enough journals of this configuration file, or an empty one when there is none. |
| Journal.AdmitExactly | src/history.rs:30-45 | A journal is read back exactly when whole, of at most 9 revisions and 64 MiB, and of this configuration file; a missing one is empty. |
| Journal.History.Restore | src/history.rs:97-105 | Compiles the first retained revision of the version. |
| JournalCrash.JournalIsExplained | src/history.rs:66-150 | After any run of records, failed writes, restarts and power losses, the journal is the one cut of a history containing every revision whose write was acknowledged and only revisions whose write was begun. |
| JournalCrash.EveryReadingIsExplained | src/history.rs:30-60 | Whatever a power loss leaves is whole and has such a history, and is refused exactly when its file exceeds 64 MiB. |
| JournalCrash.AcknowledgedIsAll | src/history.rs:136-149 | When every write begun was acknowledged, memory and disk hold exactly the one cut of all of them. |
| JournalCrash.SuccessIsDurableIff | src/history.rs:106-149 | After any run, a reported success is what every start after a power loss begins with exactly when it was a write of a revision that fits alone, or a repetition with no rename awaiting its directory sync; and it leaves no other journal possible exactly when it was a write or such a repetition. |
| JournalCrash.RepeatedRecordMayBeLost | src/history.rs:112-117 | A concrete run in which a revision is reported recorded and then lost. |
| JournalCrash.CrashIsAtomic | src/history.rs:136-149 | From a settled disk a crash after any step reveals the previous or the new journal: the previous one before the rename, the new one after the last step. |
| JournalCrash.CrashIsUndecidedAfterRename | src/history.rs:147-148 | Between rename and directory sync both are possible. |
| Journal.VisibleAfter | src/history.rs:147-148 | While the system stays up the new journal is read from the rename on. |
| JournalCrash.RenameBeforeSyncTears | src/history.rs:146-147 | Renaming before syncing the file could leave a torn journal: the order matters. |
| JournalCrash.PublishedSurvivesRestart | src/history.rs:46-64 | A revision written with success is what the next start begins with, however the process ends, unless the file has become too large to read. |
| FleetDigest.CleanRemovesOnlyBookkeeping | src/fleet.rs:154-180 | At every path of every tree, cleaning removes exactly status, resource version and managed fields of metadata-bearing objects and keeps all else. |
| FleetDigest.SameCleanIffSameVisible | src/fleet.rs:154-180 | Two trees clean alike exactly when they differ only there. |
| FleetDigest.CleanIdempotent | src/fleet.rs:154-180 | Cleaning twice is cleaning once. |
| FleetView.FindReportIsSpokesman | src/fleet.rs:418-425 | The report used for a Pod is that of the first lease held for it that carries the Pod's own report. |
| FleetView.OnlyOwnLeaseSpeaks | src/fleet.rs:418-425 | Exactly a lease held for the Pod, with that Pod's own report and a renewal time, gives a report. |
| FleetView.OtherPodsAreIgnored | src/fleet.rs:415-417 | Exactly Pods being deleted, failed or finished are not looked at. |
| FleetView.StatesMean | src/fleet.rs:427-436 | What each replica state says of freshness, readiness, rejection, settling and agreement. |
| FleetView.ConvergedIffAllAgree | src/fleet.rs:414-441 | The view is converged exactly when there is a live Pod and every live Pod has a ready, accepted report renewed within 20 seconds whose active, controls and desired digests are the controller's own and whose desired equals observed. |
| FleetView.PublishedConvergenceIsRecent | src/fleet.rs:119-130 | A published agreement rests on leases renewed at most 40 seconds ago. |
| FleetView.RolloutSamples | src/fleet.rs:58-93 | Pooling succeeds exactly when view and every peer are fresh and usable and nothing overflows, with the exact componentwise sum over all peers. |
| FleetView.PoolableExactly | src/fleet.rs:74-86 | Which peers are pooled. |
| FleetView.PooledPodIsReady | src/fleet.rs:76-84 | A Pod whose samples are pooled was ready, and so was its report. |
| FleetView.SumOfParts | src/fleet.rs:86-91 | The pooled sum is each peer's own numbers, added number by number over groups. |
| FleetView.FitsExactly | src/fleet.rs:89-91 | Pooling fails as soon as one of the numbers needs more than 64 bits. |
| FleetView.FreshnessIsLesser | src/fleet.rs:64-65 | Evidence may be as old as the window but never more than 20 seconds. |
| FleetView.PooledLeasesAreFresh | src/fleet.rs:58-93 | When pooled samples are read, every live Pod's lease is at most min(window, 20) seconds old. |
| FleetView.PublishedIffJustSeenAgreeing | src/fleet.rs:119-130 | After any rounds of observation an agreement is published exactly when the last one did not fail, was at most 20 seconds ago, and found every live Pod agreeing. |
| FleetView.FailureKeepsReplicas | src/fleet.rs:283-302 | A failed round leaves what was seen before visible, with its reason, and withdraws the agreement. |
| FleetView.PublishedAge | src/fleet.rs:124-125 | The age published is that of the last observation and never negative. |
| FleetView.PooledOnlyWhenJustSeen | src/fleet.rs:58-76 | A view may be pooled exactly after a recent last round that did not fail and saw a live Pod, and then on the Pods it saw. |
| FleetView.AttemptIsLastChange | src/fleet.rs:100-109 | After any calls the attempt time is that of the last change of digest, however often the same digest was begun again. |
| FleetView.ObservedAtLastCompletion | src/fleet.rs:110-118 | The observed digest is the one in force at the last completion, with its time and its rejection cut to 512 characters. |
| FleetView.CutKeepsStart | src/fleet.rs:110-118 | A rejection is kept as far as its first 512 characters. |
| FleetView.NothingObserved | src/fleet.rs:100-118 | Before any completion, whatever was begun, nothing is observed and no rejection reported. |
| ProxyProtocol.Read | src/proxy_protocol.rs:46-111 | Answer and stream position are those of a description of the whole input; failures of the description are failures of the reader. |
| ProxyProtocol.FinishLine | src/proxy_protocol.rs:86-92 | The byte loop stops at the first line end within the limit, or fails. |
| ProxyProtocol.LineRoundTrip | src/proxy_protocol.rs:83-110 | Any printed TCP4 or TCP6 line, followed by anything, parses back to its source, and exactly the line is consumed. |
| ProxyProtocol.BinaryRoundTrip | src/proxy_protocol.rs:51-82 | Any printed version 2 header with up to 512 payload bytes does too. |
| ProxyProtocol.OtherHeaders | src/proxy_protocol.rs:55-82 | LOCAL headers and those of the unspecified family give no address and are consumed whole; other commands and families, and payloads too short, are refused. |
| ProxyProtocol.OtherReadsBack | src/proxy_protocol.rs:51-66 | A header of any command and family is read up to its announced payload, and refused above 512 bytes. |
| ProxyProtocol.OtherInputsRefused | src/proxy_protocol.rs:49-85 | Other beginnings and other versions are refused. |
| ProxyProtocol.AcceptedLineExactly | src/proxy_protocol.rs:93-110 | A line gives an address exactly when it has six fields with two addresses of the named family and two ports, and then the source's. |
| ProxyProtocol.ConsumedThroughFirstCrlf | src/proxy_protocol.rs:86-92 | On every version 1 success the stream is consumed exactly through its first CRLF. |
| ProxyProtocol.ConsumedBinary | src/proxy_protocol.rs:51-59 | On every version 2 success 16 bytes and the announced payload are consumed. |
| ProxyProtocol.AcceptedLineLength | src/proxy_protocol.rs:86-92 | An accepted version 1 line has at most 108 bytes, and at most the 107 of the specification exactly when a CRLF ends within them. |
| ProxyProtocol.UnknownLineAccepted | src/proxy_protocol.rs:93-97 | Lines of unknown family with any further text are accepted, up to 108 bytes. |
| ProxyProtocol.PrintedLineLength | src/proxy_protocol.rs:86-92 | Every printed line has at most 104 bytes. |
| ProxyProtocol.Parse4UndoesText4 | src/proxy_protocol.rs:101-102 | Dotted decimal reads back. |
| ProxyProtocol.Parse4Exactly | src/proxy_protocol.rs:101-102 | Nothing but the canonical dotted decimal text of an address is read as it. |
| ProxyProtocol.PortExactly | src/proxy_protocol.rs:103-104 | A port is digits, perhaps after a plus sign, of a value below 65536. |
| Timeouts.ComponentsUndoPrint | src/gateway/timeouts.rs:35-56 | Reading undoes printing for every component list: trying ms before m never misreads. |
| Timeouts.AcceptedIffInGrammar | src/gateway/timeouts.rs:35-56 | Accepted are exactly one to four components of one to five digits and a unit, each text with one reading. |
| Timeouts.Duration | src/gateway/timeouts.rs:35-56 | The loop accepts exactly those texts and returns the sum in milliseconds, below 2^64. |
| Timeouts.MillisBound | src/gateway/timeouts.rs:35-56 | The sum is bounded by the number of components. |
| Timeouts.UnitLengths | src/gateway/timeouts.rs:35-56 | One component is read with its unit's length, 1, 1000, 60000 or 3600000 milliseconds. |
| Timeouts.MillisConcat | src/gateway/timeouts.rs:35-56 | Components add up. |
| Timeouts.AcceptedBudgetsOrdered | src/gateway/timeouts.rs:18-33 | Exactly which pairs are accepted; accepted enabled limits are returned unchanged, with backend at most request. |
| Timeouts.ReadBudgets | src/gateway/timeouts.rs:18-33 | Accepts exactly grammatical, admissible pairs of texts. |
| Compression.QualityReadsQvalues | src/compression.rs:180-190 | Exactly the qvalues of section 12.4.2 of RFC 9110 are accepted, each with its value in thousandths. |
| Compression.NegotiatedEncoding | src/compression.rs:121-178 | The single pass with four running minima finds the declaratively best coding. |
| Compression.NameAlone | src/compression.rs:130-156 | An item that is a coding's name, in either case, gives it the weight 1. |
| Compression.NameWithWeight | src/compression.rs:135-156 | A name with a qvalue gives that weight, and one with anything else cannot be read. |
| Compression.OtherNameIgnored | src/compression.rs:145-155 | Items with other names are ignored. |
| Compression.WeightIsLowest | src/compression.rs:156-170 | A coding's weight is the lowest under its name, else the lowest under *, else none. |
| Compression.AnswerIsWanted | src/compression.rs:121-178 | An answer names an enabled coding that some item wants, and unreadable or overlong headers get none. |
| Compression.AnswerIsBest | src/compression.rs:121-178 | The answer is an enabled coding of maximal positive weight not outranked by explicit identity; none is given only when there is no such coding. |
| Compression.OrderIndependent | src/compression.rs:121-178 | Reordering items within or across header lines changes nothing. |
| Compression.LineSplitting | src/compression.rs:121-178 | Nor does splitting any line at a comma. |
| Compression.ChoiceByWeights | src/compression.rs:160-178 | The final comparisons decide the declarative choice, brotli winning ties. |
| Identity.FirstMatchDecides | src/identity.rs:63-68 | The first matching rule decides; without one access is allowed. |
| Identity.RuleMatches | src/identity.rs:63-68 | A rule matches the addresses of its range, and every address when it names none. |
| Identity.Resolve | src/identity.rs:80-142 | The loops compute the declarative answer, disregarding a malformed or oversized chain as a whole. |
| Identity.UntrustedPeerDecides | src/identity.rs:86-88 | A peer outside all trusted ranges decides, whatever it claims. |
| Identity.ProxyHeaderDecides | src/identity.rs:89-91 | With the PROXY protocol as source its address decides. |
| Identity.UnacceptableChainIgnored | src/identity.rs:92-131 | A chain that is unreadable, over 8192 bytes or 64 hops, or has a hop without address leaves the peer to decide. |
| Identity.LastHopDecides | src/identity.rs:131-134 | Otherwise the last hop decides when the policy is not recursive. |
| Identity.RightmostUntrustedDecides | src/identity.rs:134-142 | And when it is, the rightmost untrusted of hops and peer, or the first hop. |
| Identity.ForwardedHop | src/identity.rs:103-124 | A Forwarded element has the text after its only for=, without blanks and quotes. |
| Identity.AmbiguousHop | src/identity.rs:103-113 | One with two of them, or with no field, has no address. |
| Identity.PlainHop | src/identity.rs:116-122 | Outside Forwarded the text is the hop without blanks and quotes. |
| Identity.UnquotePairs | src/identity.rs:118-121 | Quotes are taken off in pairs only. |
| Text.TrimExactly | src/identity.rs:103-117 | Trimming takes blanks away at both ends, and all of them. |
| Text.VisibleExactly | src/identity.rs:99-101 | A header is readable exactly when every character is printable ASCII, a blank or a tab. |
| Identity.AddressFromText | src/identity.rs:123-125 | A hop's address is read from that text, and there is none without. |
| Identity.ReadChain | src/identity.rs:92-131 | A chain results exactly when every line, hop and limit is respected, and is then the addresses of all hops in order. |
| Identity.SelectRecursive | src/identity.rs:135-142 | The reverse loop walks back from the peer. |
| Identity.WalkBackFindsRightmost | src/identity.rs:135-142 | Walking back ends at the rightmost untrusted address, or the leftmost when all are trusted. |
| Identity.RightmostUnique | src/identity.rs:135-142 | There is only one such position. |
| Identity.UntrustedShields | src/identity.rs:135-142 | Once an untrusted address is present, nothing further left matters. |
| Identity.ClaimedHopsIgnored | src/identity.rs:80-142 | Prepending any well-formed header lines within the limits does not change the answer once an untrusted hop exists. |
| Identity.LineSplitting | src/identity.rs:92-131 | Splitting the chain over several header lines does not either. |
| TlsNames.WinnerIsEarliest | src/model.rs:333-347 | The reverse maximum is an entry of maximal specificity with no earlier equal, or there is no match. |
| TlsNames.ChosenIsEarliest | src/model.rs:329-347 | The earliest entry of maximal specificity is chosen and its certificate is the answer, present or not. |
| TlsNames.ChosenIsMostSpecific | src/model.rs:333-361 | The chosen entry is of the listener; exact names beat wildcards, longer wildcards shorter ones, and any name a catch-all. |
| TlsNames.RanksMean | src/model.rs:333-361 | How specifically an entry matches: exactly, by a wildcard of some length, or as a catch-all. |
| TlsNames.NoTies | src/model.rs:348-361 | Two distinct names never match a host equally well above rank 0. |
| TlsNames.DnsMatchExactly | src/certificates.rs:83-92 | A pattern covers exactly its own name and, as a wildcard, names one non-empty label below its suffix. |
| TlsNames.NameNeedsPattern | src/certificates.rs:36-69 | A name is covered by DNS names, or by common names when there is neither a DNS name nor an address. |
| TlsNames.AddressNeedsItsOwnName | src/certificates.rs:36-69 | An address is covered only by an alternative name of that very address. |
| TlsNames.TrimDotsExactly | src/certificates.rs:40 | Only final dots are taken off, and all of them. |
| Text.LowerLetters | src/certificates.rs:40 | Exactly the letters A to Z have another lower case. |
| TlsNames.NoNameNeedsNone | src/certificates.rs:37-39 | An entry without a name, or with the placeholder, needs no coverage. |
| TlsNames.CertificateCoversWonHosts | src/certificates.rs:36-92 | A certificate covering an ingress name covers every non-address host the name wins, unless the name is a wildcard over nothing but dots. |
| TlsNames.DegenerateWildcardFails | src/certificates.rs:36-92 | For such a name it does not, by a concrete certificate and host. |
| TlsNames.CoverageIffNotDegenerate | src/certificates.rs:36-92 | Coverage carries over for all certificates and hosts exactly for the other names. |

## Left out

- Hashing and encodings: SHA-256, JSON and key formats. A cohort hash is a bucket from 0 to 9999, a registry
  key and a digest are strings, and a policy is its decoded form.
- The mirror, metric gates and metric rollback of a policy, and its cohort key syntax: independent checks.
- Advancing a rollout (`next_progress`); the policy hash and the release's identity are given strings.
- Lock poisoning, and the wrap-around of the health revision at 2^64.
- RolloutSelection.RoundRobinExact: counts cursor values without the wrap at 2^64, where the sequence jumps
  unless the total divides it.
- SelectionCache.ReusedSelectionIsSettled: the pool lock is not a lock object but the rule that one scan runs at a
  time and no refresh during it; readiness tests of pools with one endpoint, which cache nothing, are not in it.
- BackendPool.Backend.Current: one step; what interleaves with it is in `SelectionCache`.
- The choice among eligible endpoints, the fixed single endpoint, and probing.
- DNS lookups are given answers; socket addresses are numbered by their sort order.
- BackendPool.Backend.ApplyDns: runs under the pool lock as one step; time passing during lookups is not modelled.
- The encoded size of a journal file is a given number, since the bundle encoding is not modelled.
- Journal.CompiledBundleFits: the compiler's limits are a premise; compiling is a parameter.
- The lock file and permissions of the history directory.
- FleetDigest.CleanRemovesOnlyBookkeeping: cleaning is a function on trees, not an update in place; the
  digest itself and the controls text it also covers are left out.
- Reading Pods and Leases, renewing the own Lease, and the waiting command.
- ProxyProtocol.LineRoundTrip: IPv6 text and UTF-8 are a printer and parser pair assumed to be inverse; dotted
  decimal and ports are concrete.
- Identity.Resolve: the address parser is a parameter; `scheme` and policy validation are single branches.
- Applying the negotiated coding to a response (`prepare`, `selected_encoding`).
- TlsNames.CertificateCoversWonHosts: assumes that no address text begins with an asterisk and that "a" is not an address.
- X.509 parsing, validity times, path matching and the routing index.

# CertRollover: a verified model

CertRollover simulates replacing an old PKI trust anchor with a new one against a frozen snapshot of
services that depend on each other. This project models its backend in Dafny and proves what its answers
mean, what its lifecycle protocol keeps under any interleaving of requests, what its service table keeps
over any run, and exactly what its rate limiter admits. `dafny verify dfyconfig.toml` checks everything.

| file | part of the system |
|---|---|
| `Prelude.dfy`, `Actors.dfy`, `Sorting.dfy`, `Graphs.dfy` | identifiers, Go durations, roles, sorting and de-duplication, walks and cycles |
| `CycleDetection.dfy` | the three-colour depth-first search behind `detectCycle` and `servicesContainCycle` |
| `Snapshots.dfy`, `SnapshotBuilding.dfy` | frozen input, its canonical form, and how table rows are frozen |
| `Timing.dfy`, `Selection.dfy`, `Resolution.dfy` | sampled instants, chain selection, dependency resolution |
| `Simulator.dfy`, `SimulatorLaws.dfy` | the simulator, and how its answer is made up and moves with the input |
| `Verdicts.dfy`, `Reasons.dfy` | what every verdict, reason and broken path says of the frozen records |
| `TableVerdicts.dfy` | what a scenario frozen from the tables contains and will report, in terms of the table rows |
| `ServiceGraph.dfy`, `ServiceGraphLaws.dfy` | the stored dependency graph, who may change it, and its operations |
| `ServiceRecords.dfy` | what those operations store, and exactly when and why they refuse |
| `Scenarios.dfy`, `ScenarioRuns.dfy`, `ScenarioService.dfy` | the scenario lifecycle: steps, interleavings, service objects |
| `Accountability.dfy` | which request, by whom, is behind every change of a scenario, in any interleaving |
| `Uninterrupted.dfy` | exactly when each lifecycle request goes through, what it stores, why it is refused |
| `IdempotencyKeys.dfy` | what a Simulate request's idempotency key protects, and when it does not |
| `RateLimiter.dfy` | the rate limiter |

Methods follow the source and are proved equal to specification functions. `Verdicts`, `Reasons`, `TableVerdicts`,
`ServiceRecords`, `Accountability` and `Uninterrupted` then say what the answers are without those functions: trust
windows, chain checks, roles, state changes, columns and instants are written out there in terms of the request and
the stored data.

How the model is set up:

- Identifiers are 64-bit unsigned integers. Instants are integer nanoseconds since Go's zero time;
  `time.Sub` saturates and a halved duration truncates, as in Go.
- Ranging over a Go map is choosing the next key arbitrarily, so no result depends on the order. `sort.Slice`
  is used only through "a sorted permutation", so nothing depends on how ties fall.
- Reason and explanation strings are kept as structured values with the same content.
- A chain's window is half-open (`at < ValidTo`), as the code has it; section 4.1.2.5 of RFC 5280 makes
  `notAfter` inclusive.
- A transaction is one step that changes a row and appends its audit entry, or does neither. A request is one
  read (two for Simulate) and a later commit; any number of requests interleave between their steps.
- Encoding, decoding and hashing of scenario columns are arbitrary functions (`Codec`). Nothing about runs
  assumes anything of them; one result, that every stored input decodes and validates (`FrozenInputsValid`),
  assumes that a stored snapshot reads back as it was written.

Where the code does less than its documentation or its messages say, the model follows the code, a lemma
exhibits the difference, and another says exactly when the promise holds:

- The explanation "All active service trust paths remain reachable before, during, and after" is decided at
  sampled instants only. `SamplingGap` is a valid snapshot for which it is wrong. `AllReachableIsRightIff`
  gives the finitely many further instants (chain expiries, and the nanosecond after the overlap ends) that
  settle it.
- "Repeated requests with the same key return the stored result" holds only while the key is the last one its
  scenario was simulated under: a row keeps one key and the next simulation overwrites it. So Simulate(k1),
  return to draft, Simulate(k2), return to draft, Simulate(k1) commits k1 twice with no two requests
  overlapping (`OverwrittenKeyCommitsAgain`), and two overlapping requests can commit one key twice running
  (`SameKeyCommittedTwice`). In terms of the audit log, `AloneCommitsIff` says exactly when a request with
  nothing between its steps commits, `AloneReusesIff` when it returns the stored result,
  `LoggedKeyCommitsAgainIff` which keys already in the log can be committed again that way, and
  `CommitSimulateIff` when any commit step goes through, overlapped or not. A key one scenario has forgotten
  is free for every other scenario too.
- Create answers every unique-index violation with "an identical frozen scenario already exists". The index on
  the idempotency key covers the empty key, so one never-simulated draft blocks every other Create
  (`CreateBlockedByDraft`); `ConflictIsRealIff` says when the message is right.
- Update drops the error of its second read of the service table, and then checks an empty graph.
  `UpdateUnreadStoresCycle` stores a cycle that way; `UpdateGoodIff` says exactly when an accepted Update keeps
  the graph acyclic. Create drops the same error harmlessly (`CreateKeepsGood`), and its check can never fail
  when the read succeeds (`CreateCheckNeverRejects`).

## Model

| member | source | states |
|---|---|---|
| Sorting.SortedUnique | backend/internal/algorithm/simulator.go:348-359 | the non-zero identifiers of the input, each once, increasing |
| Sorting.UniqueIds | backend/internal/service/common.go:39-50 | the result is strictly increasing and has exactly the non-zero input identifiers |
| Sorting.MapKeys | backend/internal/algorithm/simulator.go:368-375 | exactly the keys, increasing, whatever order the map yields them in |
| Sorting.SortedPermutationUnique | backend/internal/algorithm/simulator.go:93-95 | sorting has one possible result as soon as equal keys mean equal elements |
| CycleDetection.CycleSearch.Visit | backend/internal/algorithm/simulator.go:325-340 | either a real cycle through the named node, or the node and all it leads to are done and ranked; ends on every graph |
| CycleDetection.CycleSearch.VisitKnown | backend/internal/service/common.go:70-88 | as above, also reporting an edge to a node that is not a known service |
| CycleDetection.SearchAll | backend/internal/algorithm/simulator.go:341-346 | a fault exactly when the edges contain a cycle, unlisted targets included, for every order of the keys |
| CycleDetection.SearchAllKnown | backend/internal/service/common.go:89-94 | no fault exactly when every dependency exists and there is no cycle |
| Graphs.RankedIsAcyclic | backend/internal/algorithm/simulator.go:323-346 | finishing order proves acyclicity: a rank falling along every edge leaves no cycle |
| Snapshots.NewSnapshot | backend/internal/algorithm/simulator.go:91-101 | the caller's slices end up sorted and normalised in place, and the snapshot is the canonical form of what they held |
| Snapshots.CanonicalFormUnique | backend/internal/algorithm/simulator.go:91-101 | reordering records or reordering and repeating ids inside lists gives the same snapshot |
| Timing.CriticalTimes | backend/internal/algorithm/simulator.go:270-280 | strictly increasing, and as a set exactly the six instants |
| Timing.Compact | backend/internal/algorithm/simulator.go:273-279 | in-place compaction of a sorted array never overwrites an unread element and keeps each value once |
| Timing.EveryPhaseSampled | backend/internal/algorithm/simulator.go:271 | four to six instants: before, at both ends, after, and strictly inside exactly when the overlap has room or the simulation time lies there |
| Timing.ActiveAnchorIds | backend/internal/algorithm/simulator.go:281-292 | the reported ids are the active anchors, increasing; which anchors those are is Verdicts.RowAnchors |
| Timing.PhaseIsInterval | backend/internal/algorithm/simulator.go:281-292 | what is trusted at both ends of an interval is trusted throughout it |
| Selection.EvaluateDirect | backend/internal/algorithm/simulator.go:201-240 | reachable exactly when some chain is eligible; equals the evidence naming the least eligible id, or every rejection in id order |
| Selection.DirectMeaning | backend/internal/algorithm/simulator.go:209-235 | the selected chain is eligible, no smaller id is, and its anchor is the one reported |
| Selection.ScanStep | backend/internal/algorithm/simulator.go:209-235 | the five checks of the scan pass exactly for the eligible chains |
| Resolution.ResolveService | backend/internal/algorithm/simulator.go:242-268 | terminates on every graph, restores the visiting map, computes the resolution function |
| Resolution.ReachableIff | backend/internal/algorithm/simulator.go:242-268 | on every graph, with any visiting set: reachable exactly when every dependency walk stays healthy, never repeats and avoids the set |
| Resolution.ReachableIffClosureHealthy | backend/internal/algorithm/simulator.go:242-268 | on an acyclic graph: reachable exactly when every service in the dependency closure is healthy |
| Resolution.UnreachableHasWitness | backend/internal/algorithm/simulator.go:242-268 | an unreachable service's path is a true witness and its reason is read off that path, edge by edge |
| Resolution.BrokenPathOnAcyclic | backend/internal/algorithm/simulator.go:248-266 | on an acyclic graph the path ends at an unhealthy service, whose own reason is the root cause |
| Simulator.DetectCycle | backend/internal/algorithm/simulator.go:318-347 | an error exactly when the dependency relation has a cycle, naming a node on one |
| Simulator.ValidateSnapshot | backend/internal/algorithm/simulator.go:119-150 | accepts exactly the valid snapshots; an error names a check that fails after the earlier ones passed |
| Simulator.EvaluateAll | backend/internal/algorithm/simulator.go:170-176 | the direct map holds the evidence of exactly the active services, the last one for a repeated id |
| Simulator.ResolveEach | backend/internal/algorithm/simulator.go:177-193 | the three lists this loop appends are functions of the snapshot and the instant |
| Simulator.EvidenceSortUnique | backend/internal/algorithm/simulator.go:194 | the unstable sort of evidence has one possible result even when ids repeat |
| Simulator.Explain | backend/internal/algorithm/simulator.go:293-314 | counts every failure, and warns exactly when some failure lies before or after the overlap |
| Simulator.Simulate | backend/internal/algorithm/simulator.go:152-199 | succeeds exactly on valid snapshots, with a result that is a function of the snapshot alone; Verdicts and Reasons say what every part of that result means |
| SimulatorLaws.FailuresConserved | backend/internal/algorithm/simulator.go:181-192 | affected services, broken paths and unreachable evidence entries are equally many |
| SimulatorLaws.EvidenceShape | backend/internal/algorithm/simulator.go:166-196 | one row per critical instant in time order, one entry per active service in id order, each that service's outcome |
| SimulatorLaws.AffectedExactly | backend/internal/algorithm/simulator.go:177-192 | a failure is reported for exactly the active services unreachable at a critical instant |
| SimulatorLaws.BrokenPathsMatchAffected | backend/internal/algorithm/simulator.go:184-191 | the k-th broken path carries the instant, reason and path codes of the k-th affected service |
| SimulatorLaws.AllReachableMeaning | backend/internal/algorithm/simulator.go:294-296 | the all-reachable sentence is said exactly when nothing active fails at a critical instant |
| SimulatorLaws.WarningsMeaning | backend/internal/algorithm/simulator.go:297-312 | the counts agree and each warning is given exactly when a reported failure is on that side |
| SimulatorLaws.ReachableOnValidated | backend/internal/algorithm/simulator.go:242-268 | on a validated snapshot: reachable exactly when everything depended on is active with an eligible chain |
| SimulatorLaws.BrokenPathWitness | backend/internal/algorithm/simulator.go:181-191 | every broken path is a true witness, and the cycle branch is never the root cause |
| SimulatorLaws.ReachableMonotone | backend/internal/algorithm/simulator.go:201-268 | larger trust sets or candidate lists never make a reachable service unreachable, at any instant |
| SimulatorLaws.EnlargedValid | backend/internal/algorithm/simulator.go:119-150 | the enlarged snapshot still validates when the added candidates are known chains |
| SimulatorLaws.FailuresShrink | backend/internal/algorithm/simulator.go:183-192 | the reported (service, instant) failures can only shrink |
| SimulatorLaws.Interpolation | backend/internal/algorithm/simulator.go:201-292 | reachable at two instants of a phase with the same chains selected throughout the closure means reachable in between |
| SimulatorLaws.ReachableThroughout | backend/internal/algorithm/simulator.go:218-229 | reachable over a whole interval exactly when reachable at its start and at each loss instant inside it |
| SimulatorLaws.AllReachableIsRightIff | backend/internal/algorithm/simulator.go:293-296 | a result called all-reachable is right of every instant from the least to the greatest critical one exactly when the loss instants in that range are reachable too |
| SimulatorLaws.SamplingGap | backend/internal/algorithm/simulator.go:270-296 | a valid snapshot called all-reachable whose service is unreachable inside the overlap |
| Verdicts.AcceptableIff | backend/internal/algorithm/simulator.go:119-150 | the accepted snapshots, written out: anchors, window, time, candidates, and no walk of dependencies that returns |
| Verdicts.ServedIff | backend/internal/algorithm/simulator.go:201-240 | directly served means: an active record, and a last-listed chain it lists or is configured with, of the same leaf, usable, in its window, validated, whose anchor the service trusts and is the old one until the overlap ends or the new one from its start |
| Verdicts.ReachableMeans | backend/internal/algorithm/simulator.go:242-268 | on accepted input: unreachable exactly when some walk of dependencies leads to a service not served |
| Verdicts.FailuresMean | backend/internal/algorithm/simulator.go:152-196 | a failure is reported at exactly the sampled instants, written out with the simulation time among them, for exactly the active services that need one not served |
| Verdicts.FailuresAreNamed | backend/internal/algorithm/simulator.go:183-184 | each failure carries the code and criticality of an active record with that id |
| Verdicts.FailuresInOrder | backend/internal/algorithm/simulator.go:165-184 | failures come in time order, and within an instant in id order |
| Verdicts.RowsAreSampled | backend/internal/algorithm/simulator.go:166-196 | one evidence row for each sampled instant, in time order, and no other |
| Verdicts.RowAnchors | backend/internal/algorithm/simulator.go:281-292 | in every row: the old anchor exactly until the overlap ends, the new one exactly from its start, and no other |
| Verdicts.RowEntries | backend/internal/algorithm/simulator.go:167-194 | in every row each entry is one active record, its verdict is as above, the chain named is the least that can serve it, and a reachable one before the overlap uses the old anchor, after it the new one |
| Verdicts.RowsAreComplete | backend/internal/algorithm/simulator.go:177-182 | every active service has an entry in every row |
| Reasons.DirectReasonIsTrue | backend/internal/algorithm/simulator.go:201-240 | the reason for a service not served is true and complete: chain missing, no matching leaf, or one true rejection for every chain considered, naming the first check it fails |
| Reasons.BrokenPathsMean | backend/internal/algorithm/simulator.go:181-191 | the k-th broken path traces a walk from the k-th failure, all served but the last; its codes are those services' codes and its reason follows the walk to what is wrong with the last |
| Reasons.EntryReasonIsTrue | backend/internal/algorithm/simulator.go:242-268 | an unreachable evidence entry carries the reason of such a walk too |
| ServiceGraph.ServicesContainCycle | backend/internal/service/common.go:59-95 | nil exactly when every list decodes, every dependency exists and there is no cycle; otherwise a real fault |
| ServiceGraph.EdgeCheckMeaning | backend/internal/service/dependent_service_service.go:60-67 | the dependency check passes exactly when every id is a known service other than the service itself |
| ServiceGraph.DependentServiceService.ValidateReferences | backend/internal/service/dependent_service_service.go:38-69 | the first failing reference check, in the order the code makes them |
| ServiceGraph.DependentServiceService.Create | backend/internal/service/dependent_service_service.go:70-102 | ownership, references, graph, unique code: appends the new row, or changes nothing and says which check refused; the row and the conditions are spelled out in ServiceRecords |
| ServiceGraph.DependentServiceService.Update | backend/internal/service/dependent_service_service.go:129-177 | existence, ownership, transfer, references, graph: rewrites the row's columns, or changes nothing and says which check refused; columns and conditions are spelled out in ServiceRecords |
| ServiceGraph.DependentServiceService.OverwriteRows | backend/internal/service/dependent_service_service.go:147-154 | the in-place loop gives the candidate table with only that service's references replaced |
| ServiceGraph.DependentServiceService.Deactivate | backend/internal/service/dependent_service_service.go:179-206 | existence, ownership, state: the row changes or nothing does; ServiceRecords spells out both |
| ServiceGraphLaws.CreateKeepsGood | backend/internal/service/dependent_service_service.go:77-94 | replacing the sentinel by a fresh assigned id keeps the graph closed and acyclic, even if the graph read failed |
| ServiceGraphLaws.CreateCheckNeverRejects | backend/internal/service/dependent_service_service.go:84-89 | after the reference checks, the candidate graph with the sentinel is always accepted |
| ServiceGraphLaws.OverwrittenGraph | backend/internal/service/dependent_service_service.go:147-154 | the candidate graph is the stored graph with one service's edges redefined |
| ServiceGraphLaws.UpdateGoodIff | backend/internal/service/dependent_service_service.go:142-173 | an accepted Update keeps the graph good exactly when no new dependency already leads back to the service |
| ServiceGraphLaws.UpdateKeepsGood | backend/internal/service/dependent_service_service.go:155-173 | when the graph read succeeds, an accepted Update always keeps it good |
| ServiceGraphLaws.UpdateUnreadStoresCycle | backend/internal/service/dependent_service_service.go:147-157 | when it fails, Update can store a cycle of two services |
| ServiceGraphLaws.RunsStayGood | backend/internal/service/dependent_service_service.go:70-206 | over every sequential run the stored graph stays closed and acyclic |
| ServiceGraphLaws.RunsStayInTeam | backend/internal/service/dependent_service_service.go:29-37 | whatever one team's service owners do in any run, no other team's service changes and none changes hands |
| ServiceRecords.CreateStores | backend/internal/service/dependent_service_service.go:77-94 | one active row is appended, with the assigned id, the requested code, team, chain and criticality, and exactly the requested non-zero anchors and dependencies |
| ServiceRecords.UpdateStores | backend/internal/service/dependent_service_service.go:142-173 | the row with that id gets the requested team, chain, criticality, anchors and dependencies and keeps its id, code and state; every other row is unchanged |
| ServiceRecords.DeactivateStores | backend/internal/service/dependent_service_service.go:189-198 | the row with that id becomes inactive; everything else is unchanged |
| ServiceRecords.CreateGoesThroughIff | backend/internal/service/dependent_service_service.go:70-102 | on a good table: exactly for an administrator, PKI operator or owner of the team, when everything referred to exists, the code is new and, if the graph read failed, nothing is depended on |
| ServiceRecords.UpdateGoesThroughIff | backend/internal/service/dependent_service_service.go:129-177 | on a good table: exactly when the row exists, the actor may write it and keeps it in the team, everything referred to exists and, if the graph was read, no requested dependency leads back |
| ServiceRecords.DeactivateGoesThroughIff | backend/internal/service/dependent_service_service.go:179-206 | exactly when the row exists, is active and the actor may write it |
| ServiceRecords.CreateRefuses | backend/internal/service/dependent_service_service.go:70-102 | each refusal names the first check that fails, written out |
| ServiceRecords.UpdateRefuses | backend/internal/service/dependent_service_service.go:129-177 | each refusal names the first check that fails, written out; a dependency refused is the least one at fault |
| ServiceRecords.DeactivateRefuses | backend/internal/service/dependent_service_service.go:179-206 | each refusal names the first check that fails, written out |
| SnapshotBuilding.BuildSnapshot | backend/internal/service/common.go:111-141 | a valid canonical form of the frozen rows, or a list that does not decode, or a real error of that form; never a cycle over a good table; TableVerdicts says what such a form contains, when it validates and what it will report |
| SnapshotBuilding.FrozenGraph | backend/internal/service/common.go:124-135 | freezing keeps the dependency graph, so both cycle checks see the same edges |
| TableVerdicts.ContentsFrozen | backend/internal/service/common.go:111-135 | one record for each chain and service row, with that row's columns and decoded lists, and no others; the configuration as given |
| TableVerdicts.AnchorsFrozen | backend/internal/service/common.go:112-115 | one record for each anchor row, with its columns |
| TableVerdicts.ServedFromRows | backend/internal/service/common.go:111-137 | a frozen service is directly served exactly when its row is active and some chain row can serve it at that instant |
| TableVerdicts.RowsAcceptableIff | backend/internal/service/common.go:137-139 | whether what is frozen validates, in terms of the rows |
| TableVerdicts.ReachableFromRows | backend/internal/service/common.go:111-141 | reachable in the frozen scenario exactly when no walk over the stored dependencies leads to a row no chain row can serve |
| TableVerdicts.FailuresFromRows | backend/internal/service/common.go:111-141 | from tables to report: the failures a frozen scenario reports, in terms of the rows it was frozen from |
| ScenarioService.ScenarioDatabase.Insert | backend/internal/repository/rollover_scenario_repository.go:27-32 | inserts exactly when no unique index is violated |
| ScenarioService.ScenarioDatabase.FindByIdempotencyKey | backend/internal/repository/rollover_scenario_repository.go:63-69 | the smallest id holding the key, or none |
| ScenarioService.ScenarioDatabase.CompleteSimulation | backend/internal/repository/rollover_scenario_repository.go:77-85 | changes exactly a draft row, and fails when another row holds the key |
| ScenarioService.ScenarioDatabase.Transition | backend/internal/repository/rollover_scenario_repository.go:86-97 | changes exactly a row still in the expected state |
| ScenarioService.ScenarioDatabase.SetReplayVerified | backend/internal/repository/rollover_scenario_repository.go:98-107 | sets the flag on an existing row, whatever its state |
| ScenarioService.RolloverScenarioService.PrepareCreate | backend/internal/service/rollover_scenario_service.go:39-75 | proceeds exactly on decodable, acceptable rows with both anchors and every candidate found, with the draft of what was frozen: its creator is the actor, its hash is of its input, its simulation time the one asked for |
| ScenarioService.RolloverScenarioService.FinishCreate | backend/internal/service/rollover_scenario_service.go:76-88 | row and audit entry together, or neither |
| ScenarioService.RolloverScenarioService.PrepareSimulate | backend/internal/service/rollover_scenario_service.go:90-104 | the checks before the key lookup, in order |
| ScenarioService.RolloverScenarioService.LookUpKey | backend/internal/service/rollover_scenario_service.go:105-130 | a failed lookup, reuse, refusal, or the encoded simulation of the frozen input |
| ScenarioService.RolloverScenarioService.FinishSimulate | backend/internal/service/rollover_scenario_service.go:131-153 | row and audit entry together, only on a row that is still a draft |
| ScenarioService.RolloverScenarioService.Simulate | backend/internal/service/rollover_scenario_service.go:90-153 | with no request in between, store and answer are those of SimulateAlone, whose commits AloneCommitsIff settles |
| ScenarioService.RolloverScenarioService.PrepareTransition | backend/internal/service/rollover_scenario_service.go:175-203 | the checks before the transaction, in order; Uninterrupted says which requests pass them and why the others are refused |
| ScenarioService.RolloverScenarioService.FinishTransition | backend/internal/service/rollover_scenario_service.go:204-226 | row and audit entry together, only on a row still in the state read |
| ScenarioService.RolloverScenarioService.PrepareReplay | backend/internal/service/rollover_scenario_service.go:227-251 | simulates the frozen input again and compares all four stored outputs |
| ScenarioService.RolloverScenarioService.FinishReplay | backend/internal/service/rollover_scenario_service.go:252-266 | stores the verdict with its audit entry, and reports a failed replay |
| ScenarioRuns.RunInvariant | backend/internal/service/rollover_scenario_service.go:39-266 | after every interleaving: good rows, unique keys and inputs, sound pending requests, unbroken audit walks |
| ScenarioRuns.NextKeepsInvariant | backend/internal/service/rollover_scenario_service.go:131-147 | every single read, lookup or commit step keeps the invariant |
| ScenarioRuns.CommitRecorded | backend/internal/service/rollover_scenario_service.go:204-221 | a commit appends one audit entry, which records exactly the change of state it makes |
| ScenarioRuns.ReplayAlwaysPasses | backend/internal/service/rollover_scenario_service.go:235-251 | replaying a scenario past draft always reproduces the stored outputs |
| ScenarioRuns.FrozenInputsValid | backend/internal/service/rollover_scenario_service.go:39-75 | in every reachable store every frozen input decodes and validates, when a stored snapshot reads back as written |
| ScenarioRuns.AuditWalkUnbroken | backend/internal/constants/scenario_state.go:18-31 | each scenario's audit entries form an unbroken legal walk to its stored state |
| ScenarioRuns.VerifiedOnlyAfterReview | backend/internal/constants/scenario_state.go:18-31 | a verified scenario's last four changes are simulate, ready, executing, verified |
| ScenarioRuns.VerifiedByAnother | backend/internal/service/rollover_scenario_service.go:183-216 | a verifier is stored exactly for verified scenarios and is never the stored creator; Accountability.VerifierIsNotCreator says so of the requests |
| ScenarioRuns.TerminalForever | backend/internal/constants/scenario_state.go:18-31 | verified and rollback are never left |
| ScenarioRuns.FrozenForever | backend/internal/repository/rollover_scenario_repository.go:77-107 | frozen input and creator never change and rows are never deleted |
| ScenarioRuns.WalkBalances | backend/internal/constants/scenario_state.go:18-31 | along any legal walk, simulations minus returns to draft tells whether the walk ends past draft |
| ScenarioRuns.SimulationsBalance | backend/internal/repository/rollover_scenario_repository.go:77-97 | committed simulations minus committed returns is 0 in draft and 1 otherwise |
| Accountability.EveryChangeIsAsked | backend/internal/service/rollover_scenario_service.go:39-266 | in every interleaving the store changes only when a request commits, to one row and one audit entry, exactly as that request asked, for an actor whose role or id allows it on the row as it then stands |
| Accountability.CreatorIsRequester | backend/internal/service/rollover_scenario_service.go:75-75 | a scenario's row is the draft of the Create request that stored it, and its creator is and stays that request's actor |
| Accountability.VerifierIsNotCreator | backend/internal/service/rollover_scenario_service.go:183-216 | in every run the actor whose Transition request verified a scenario is not the actor whose Create request stored it, and is the verifier it names |
| Uninterrupted.CreateGoesThroughIff | backend/internal/service/rollover_scenario_service.go:74-88 | exactly when the snapshot is acceptable, the id is free, no stored scenario has the same hash, version and time, and none holds the empty key; every column stored is written out |
| Uninterrupted.SimulateGoesThroughIff | backend/internal/service/rollover_scenario_service.go:90-153 | exactly for a key of 1 to 128 characters no scenario holds, on a draft with readable input, for its creator, an administrator or a PKI operator; stores the simulator's answer on that input and the key |
| Uninterrupted.TransitionGoesThroughIff | backend/internal/service/rollover_scenario_service.go:175-226 | exactly when the scenario exists, the change is legal and not to simulated, the comment has at most 1000 characters, and the actor is anyone but the creator (to verify) or the creator, an administrator or a PKI operator (otherwise); stores state, verifier and rollback comment |
| Uninterrupted.ReviewerCanVerify | backend/internal/service/rollover_scenario_service.go:183-193 | any user but the creator can verify an executing scenario, and becomes its verifier |
| Uninterrupted.ReplayGoesThroughIff | backend/internal/service/rollover_scenario_service.go:227-266 | exactly for who manages a scenario past draft with readable input; stores whether all four stored columns are the simulator's answer |
| Uninterrupted.ReadRefusal | backend/internal/service/rollover_scenario_service.go:90-203 | the first step of each request is refused by the first check that fails, written out |
| Uninterrupted.LookupAnswer | backend/internal/service/rollover_scenario_service.go:105-130 | what Simulate answers after its key lookup: who holds the key decides first, then the row as it was read |
| ScenarioRuns.CommitKeepsKeys | backend/internal/repository/rollover_scenario_repository.go:77-85 | any commit keeps this true of every row: its key is that of the last simulation in its audit entries or, with none, the key it was seeded with or the empty key |
| IdempotencyKeys.AloneCommitsIff | backend/internal/service/rollover_scenario_service.go:90-153 | a Simulate with nothing between its steps commits exactly when the requester may simulate the row, its frozen input decodes and validates, it is a draft, and no scenario was last simulated under the key; it then appends one entry, otherwise it changes nothing |
| IdempotencyKeys.AloneReusesIff | backend/internal/service/rollover_scenario_service.go:105-109 | it returns the stored result exactly when the key is the one its scenario was last simulated under |
| IdempotencyKeys.ForgottenIff | backend/internal/repository/rollover_scenario_repository.go:77-85 | a scenario's last key differs from one it used earlier exactly when a later simulation overwrote that one and none used it since |
| IdempotencyKeys.LoggedKeyCommitsAgainIff | backend/internal/service/rollover_scenario_service.go:105-147 | a key the audit log shows committed for a scenario is committed again without overlap exactly when it is forgotten, the row is a draft, and no other scenario was last simulated under it |
| IdempotencyKeys.OverwrittenKeyCommitsAgain | backend/internal/service/rollover_scenario_service.go:105-147 | five requests, each finished before the next starts, commit one key twice |
| IdempotencyKeys.CommitSimulateIff | backend/internal/repository/rollover_scenario_repository.go:77-85 | the commit step of any Simulate goes through exactly on a draft when no other scenario was last simulated under the key |
| IdempotencyKeys.HeldKeyIsReused | backend/internal/service/rollover_scenario_service.go:105-109 | a Simulate whose scenario holds the key at lookup returns the stored row and commits nothing |
| IdempotencyKeys.HeldKeyCommitsIff | backend/internal/repository/rollover_scenario_repository.go:77-85 | past the lookup, a held key is committed again exactly when the row is a draft |
| IdempotencyKeys.KeyRecordedBySimulation | backend/internal/service/rollover_scenario_service.go:130-147 | a scenario comes to hold a key only through a simulation committed under it |
| IdempotencyKeys.RepeatedKeyNeedsOverlap | backend/internal/service/rollover_scenario_service.go:105-147 | a request past its lookup finds its key on its own row only if another simulation committed it since that lookup; keys the row has lost to a later one are decided by LoggedKeyCommitsAgainIff |
| IdempotencyKeys.SameKeyCommittedTwice | backend/internal/service/rollover_scenario_service.go:105-147 | from any draft, two overlapping requests and a return to draft commit one key twice |
| IdempotencyKeys.CreateBlockedByDraft | backend/internal/model/rollover_scenario.go:28 | a never-simulated scenario blocks every other Create |
| IdempotencyKeys.ConflictIsRealIff | backend/internal/service/rollover_scenario_service.go:82-87 | for any store: the conflict message is right exactly when the input exists already or no row holds the empty key |
| IdempotencyKeys.EmptyKeyIffNeverSimulated | backend/internal/model/rollover_scenario.go:28 | in every reachable store the empty key means: created in the run, and no simulation in its audit log |
| IdempotencyKeys.OneNeverSimulated | backend/internal/model/rollover_scenario.go:28 | of the scenarios created in a run, at most one has no committed simulation in its audit log |
| RateLimiting.RateLimiter.constructor | backend/internal/middleware/auth.go:106-111 | a limit below one becomes one; no buckets |
| RateLimiting.RateLimiter.Admit | backend/internal/middleware/auth.go:119-135 | the decision and the new state of one request under the lock |
| RateLimiting.RateLimiter.Sweep | backend/internal/middleware/auth.go:121-125 | the deleting range loop removes exactly the expired buckets, in any order |
| RateLimiting.DecisionsAreIsolated | backend/internal/middleware/auth.go:113-143 | under any mix of clients, decisions equal those of an unswept limiter on that key's requests alone |
| RateLimiting.LimiterMinuteBound | backend/internal/middleware/auth.go:128-135 | a key is admitted at most 2 * limit - 1 times in any half-open minute of any run |
| RateLimiting.BoundIsTight | backend/internal/middleware/auth.go:128-135 | for every limit a run of the limiter itself admits 2 * limit - 1 requests of a key within a minute |
| RateLimiting.LimiterRefusalEarned | backend/internal/middleware/auth.go:128-135 | a refused request finds its key admitted at least limit times in the minute before it |
| RateLimiting.RefusedIff | backend/internal/middleware/auth.go:128-135 | in every run a request is refused exactly when its client made at least limit requests earlier in the window it falls in, a window being opened by a first request and by the first one a minute or more after the last opening |

## Left out

- X.509 and PEM parsing, signature checks, demo PKI: a chain's validation result is an input boolean.
- JSON, SHA-256, GORM and SQL: columns are values or go through `Codec`; a decodable id list is `Encoded`, any other text is `Garbled`.
- The `updates` maps the services pass to the repositories: each method takes the columns it writes as parameters.
- Ids handed out by the database: fresh ids are assumed for services; the scenario model refuses an insert whose id is taken.
- All chains in a frozen snapshot: Create freezes one page of 200 chains; here the chains are whatever that read returned.
- Interleaved Create and Update of services: the graph check runs outside the transaction, so the acyclicity claim is for requests run one at a time.
- Replay entries in the audit walk: SetReplayVerified is not conditional on the state, so the state they record may be stale.
- Audit fields other than action, scenario, states and key; durations, names, timestamps and actors' names.
- Request-field validation of service requests, and name and length validation of Create requests: they only refuse more.
- Whitespace trimming of keys and comments: both are taken as already trimmed.
- Clock readings of the limiter are arguments; its bounds assume they do not decrease and are never the zero time.
- JWT, bcrypt, role permissions in handlers and routers, pagination, search, configuration, logging, Compare maps and the certificate-state thresholds.
- The frontend.

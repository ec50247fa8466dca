# A verified model of the weles fleet supervisor

`weles` boots a fleet of services, restarts the ones that crash, stages immutable generations of binaries, and
lets only one rollout run on a machine. This project models that logic in Dafny and proves what every run of it
keeps. `dafny verify dfyconfig.toml` checks the whole project.

Time is a natural number of nanoseconds. Everything the outside world answers (liveness queries, probes, spawns,
shutdowns, directory scans, reads of the state file, chunk sizes, allocator answers, the clock) is an arbitrary
input, so a statement about all inputs is a statement about all environments. What the platform is trusted for is
written out as a hypothesis where it is used: `SingleInstance.Possible`, `DownRace.ExitsAt`, `Borrow.Sound`, and in
`Generations` one predicate per hypothesis (`CompleteScans`, `NewNumber`, `ReliableReread`, `StaysInside`,
`NamesApart`), of which each result names those it needs.

| file | models |
|---|---|
| `RestartPolicy.dfy`, `ServiceRun.dfy`, `RestartDecisions.dfy`, `SingleInstance.dfy` | the per-service restart machine: one transition, one tick, every run, what every run decides told in crash and spawn instants, and every run together with the processes it leaves behind |
| `FleetRun.dfy`, `FleetLog.dfy`, `Fleet.dfy` | a whole run and its log of stop checks, spawns and stops as functions of what the outside world answers; the supervisor that executes it: boot gates, the monitor loop, teardown, over records updated in place |
| `Poller.dfy`, `PortMint.dfy` | the round-robin readiness poller; the port mint pass |
| `Staging.dfy`, `Generations.dfy`, `DeployCommands.dfy`, `GenerationNames.dfy` | staging and verification of a generation; deploy, rollback, pins and retention as a transition system; the two commands as programs that issue its steps; generation names |
| `Borrow.dfy`, `RolloutLock.dfy` | the rollout lock and its one-shot borrow as a transition system; the borrower's side as a program that issues its steps |
| `Frames.dfy`, `DownRace.dfy` | the control protocol's frame codec; the `down` client racing with an exiting supervisor |
| `Prelude.dfy`, `Decimal.dfy` | shared value types; decimal spelling |

## Where the code promises less than it seems to

Each of these is stated by the lemma or contract named, and where the promise fails only sometimes, so is the exact
condition under which it holds.

- A liveness query that fails counts as an exit. Dropping the handle forces the process, but if that fails too the
  next respawn starts a second process (`QueryFailureCanDuplicate`). At a respawn something is still alive exactly when a process leaked that way is
  (`RespawnOverLiveOnlyAfterLeak`).
- The thirty-second backoff cap is never reached: giving up comes first (`EveryStateCoherent`).
- An early error (missing binary, database too small, prepare hook, port mint) returns with the published status
  still `Starting` (`Supervisor.RunFleet`).
- A supervisor's generation is protected from its critical checkpoint on, not from discover
  (`UnprotectedBeforeCheckpoint`), and a state file that cannot be loaded counts as no pin
  (`PinProtectsIffReadIsRight`).
- A rollback whose two directory scans disagree can delete its own target (`RollbackTargetAtRiskIff`).
- A directory scan that fails comes back empty, and then the next deploy is number one again. The number is new
  exactly when the scan sees the highest one (`NumberIsFreshIff`). The comment on
  `prune_stale_generations` says that a partial directory does not advance the counter; the code, which is
  followed here, counts every directory, as the comment on `next_generation` says.
- Package names are not checked and are joined as paths. One called `fleet.toml` or `./fleet.toml` is overwritten by
  the stamped fleet definition (`FleetNameCollides`) and one called `manifest.json` by the manifest
  (`ManifestNameCollides`), and the generation does not verify. Among paths that lead to entries of the directory it
  verifies exactly when no two files written lead to one entry with different contents
  (`StagedIsIntactIffConsistent`). A path such as `../gen-3/x` leads into another generation (`PathsCanLeadOut`) and
  can change a pinned one (`CopyTouchesPinIff`).
- Two directory names can stand for one generation number; a name is the number's own exactly when it is spelled
  without a plus sign and needless zeros (`OwnNameIff`).
- A refused borrow can leave a marker behind, exactly when the marker was created and finishing it failed
  (`RefusedBorrowTouchesNoMarkerIff`).
- Run ids may contain dots, and then two leases can share a marker (`DottedRunIdsCollide`), which reopens a role
  already borrowed (`CollisionReopensRole`, `CollisionHappens`). Without dots they share one exactly when run id, start time and role
  agree (`MarkersSeparateLeases`).
- The borrower checks that the lock is held, not by whom. A lease that its owner has dropped can still be borrowed
  between the moment somebody else takes the lock and the moment they rewrite the metadata
  (`EndedLeaseCanBeBorrowed`), and only then (`AdmittedUnderItsLender`).

## Model

| member | source | states |
|---|---|---|
| RestartPolicy.BackoffSchedule | weles/src/supervisor.rs:145-152 | the delay is monotone in the failure count, never above the cap, exactly doubling up to five failures, exactly the cap from six on |
| ServiceRun.TickKeepsInv | weles/src/supervisor.rs:208-258 | one tick, under any answers, keeps the invariant that ties phase, history, process, status, attempts, resets and the last crash together |
| ServiceRun.RunKeepsInv | weles/src/supervisor.rs:1237-1301 | the invariant holds after every run from boot |
| ServiceRun.RestartBudget | weles/src/supervisor.rs:110-165 | over any run, respawn attempts are at most four per crash that ended a healthy minute, plus four; hence at most four per elapsed minute, plus four; with no such crash at most four restarts |
| ServiceRun.BudgetIsAttained | weles/src/supervisor.rs:110-165 | for every number of resets some run uses the budget up exactly, so no smaller bound holds |
| ServiceRun.EveryStateCoherent | weles/src/supervisor.rs:208-258 | in every reachable state a process is held exactly while coming up or healthy, only a healthy phase carries a healthy-since and it is the history's, failure counts are bounded per phase, and a backoff lasts 1, 2, 4 or 8 seconds from the crash that caused it |
| ServiceRun.TickKeepsCoherent | weles/src/supervisor.rs:1337-1433 | a tick keeps phase, history, process and status fitting together from any state in which they do, whatever the clock does |
| ServiceRun.FailedIsAbsorbing | weles/src/supervisor.rs:208-247 | after giving up nothing but readiness ever changes and no respawn is attempted |
| ServiceRun.ReadinessNeverRestarts | weles/src/supervisor.rs:1271-1298 | two runs that differ only in readiness verdicts agree on phase, history, process, status, restart count, attempts and every next directive |
| RestartDecisions.EveryDecision | weles/src/supervisor.rs:208-258 | after any run from boot, whatever the clock does: a respawn is decided exactly when the service is in backoff, no stop is set, and 1, 2, 4 or 8 seconds have passed since its last crash, by the crashes in a row; a kill exactly when it is coming up, runs, is not ready and was spawned at least thirty seconds ago; a crash is recorded, and at which instant, exactly when the held process is not seen running, on such a kill, or when a respawn fails |
| RestartDecisions.EveryOutcome | weles/src/supervisor.rs:1337-1433 | after any run from boot: the service becomes healthy, coming up or given up exactly when the answers say so, given up exactly after five crashes in a row or an unconfirmed kill; it holds the process it was spawned with while up or coming up, and counts a restart exactly when it spawns |
| RestartDecisions.ProcessesAreConserved | weles/src/supervisor.rs:1337-1433 | over any run, what was held at first and what was spawned since has been let go of or is held |
| RestartDecisions.NewestVerdictShows | weles/src/supervisor.rs:371-380 | a service shows the newest readiness verdict about it |
| SingleInstance.RunStaysAccounted | weles/src/supervisor.rs:1306-1433 | after every run each live process is held, leaked by a failed liveness query whose forced drop failed too, or the one orphan of an unconfirmed kill, and an orphan exists only once the service has been given up |
| SingleInstance.RespawnOverLiveOnlyAfterLeak | weles/src/supervisor.rs:1306-1333 | at a respawn some process of the service is alive exactly when a leaked one is; none is spawned over an unconfirmed kill |
| SingleInstance.SingleInstance | weles/src/supervisor.rs:283-312 | while liveness queries succeed, or the forced drop after a failed one works, two processes of one service never coexist and a process is spawned only when none is alive |
| SingleInstance.QueryFailureCanDuplicate | weles/src/supervisor.rs:1312-1318 | a run in which one failed liveness query, and a forced drop that fails as well, end with two live processes |
| FleetRun.BootLeavesCoherent | weles/src/supervisor.rs:1166-1231 | boot hands over only services that are up with no failures; any other record it leaves is untouched or still coming up, with thirty seconds from its spawn and its own process held |
| FleetRun.FirstDecides | weles/src/supervisor.rs:1194-1231 | the first gate iteration that decides anything decides the gate, and the service is up since the instant of that iteration's ready answer |
| FleetRun.GateEndsIff | weles/src/supervisor.rs:1194-1231 | for all gate answers: interrupted exactly if some iteration sees a stop and every earlier one decided nothing; up exactly if the first that decides sees no stop and a running, ready process; failed exactly otherwise |
| FleetRun.BootEndsIff | weles/src/supervisor.rs:1173-1231 | a service's boot is interrupted exactly if a stop is seen before its spawn or at its gate, and up exactly if it is spawned and its gate opens |
| FleetRun.MonitoredIff | weles/src/supervisor.rs:953-967 | the monitor is entered exactly if every service is up and no stop came in |
| FleetRun.FinalStatusTellsTheTruth | weles/src/supervisor.rs:1441-1499 | after teardown a status is failed exactly if the service was given up or its stop unconfirmed, stopped exactly if never started or confirmed stopped, exited exactly if it was dead before |
| FleetRun.BeforeTeardownCoherent | weles/src/supervisor.rs:953-995 | whatever the answers, teardown starts from records that are untouched or coherent |
| FleetRun.FinalStatusOfRun | weles/src/supervisor.rs:1441-1499 | so after every run each final status tells the truth about its service |
| FleetRun.CleanIffNoneFailed | weles/src/supervisor.rs:1441-1514 | after every run, all stops were clean exactly if no process held before teardown is left with a failed status |
| FleetLog.GuardedEverywhere | weles/src/supervisor.rs:208-225 | in a guarded log every spawn directly follows a stop check that found no stop |
| FleetLog.RunLogGuarded | weles/src/supervisor.rs:1166-1301 | the log of every run, whatever the outside world answers, is guarded |
| FleetLog.AtMostOneSpawnAfterStop | weles/src/supervisor.rs:1249-1293 | wherever stop is set in a guarded log, at most one spawn of the whole fleet still completes, and only one whose stop check had already passed |
| FleetLog.RunIsStopSafe | weles/src/supervisor.rs:953-967 | so does every run: from the moment stop is set at most one spawn completes during boot and monitor together |
| FleetLog.RunLogHoldsEverySpawn | weles/src/supervisor.rs:1166-1301 | the log of a run holds every spawn: each service once if boot spawned it, and once for every restart its record counts |
| FleetLog.EverySpawnIsAccountedFor | weles/src/supervisor.rs:1166-1301 | over a whole run, the spawns of a service in the log are the processes it let go of before teardown and the one it still holds there |
| FleetLog.InterruptedIffStopSeen | weles/src/supervisor.rs:1166-1231 | boot is interrupted exactly when one of its logged checks saw a stop |
| FleetLog.FailedBootSawNoStop | weles/src/supervisor.rs:953-995 | a run that a stop ended, in boot, right after it or at a tick, shows the stop in its log; a run whose boot failed saw none |
| FleetRun.FleetReadinessNeverRestarts | weles/src/supervisor.rs:371-380 | fleets of monitor ticks that differ only in readiness verdicts make the same restart decisions for every service |
| FleetRun.FleetRestartBudget | weles/src/supervisor.rs:953-967 | from boot through any monitor ticks every service of the fleet stays coherent and within its restart budget |
| FleetRun.StatesAreRuns | weles/src/supervisor.rs:1271-1298 | ticking the fleet takes each service through its own run, whatever happens to the others |
| FleetRun.ReachedIsFirstNotUp | weles/src/supervisor.rs:1166-1231 | boot reaches exactly the first service that is not up |
| FleetRun.MonitorEndsAtFirstStop | weles/src/supervisor.rs:1249-1252 | the monitor makes exactly the ticks before the first that finds stop set |
| Fleet.Supervisor.Checkpoint | weles/src/supervisor.rs:564-596 | one snapshot is appended; it shows the fleet status and every service in its place with its status, process, restarts and readiness; the lifecycle is kept |
| Fleet.SnapshotShows | weles/src/supervisor.rs:564-585 | a snapshot is the one of the present state exactly if it shows the status and, in order, each service's status, process, restarts and readiness |
| Fleet.Supervisor.FoldReadiness | weles/src/supervisor.rs:371-380 | only readiness is written, only for services that have a verdict, and a change is reported exactly when there was one |
| Fleet.Supervisor.ServiceShare | weles/src/supervisor.rs:1271-1298 | one service's share of a tick changes that record as specified and no other, and adds exactly its stop check and its spawn to the log |
| Fleet.Supervisor.AnnounceRespawn | weles/src/supervisor.rs:1271-1298 | a snapshot with the service restarting is published before the spawn is logged |
| Fleet.Supervisor.MonitorTick | weles/src/supervisor.rs:1249-1300 | every service makes exactly one tick on its own answers, the log grows by exactly their stop checks and spawns, and the last checkpoint shows the result |
| Fleet.Supervisor.Monitor | weles/src/supervisor.rs:1237-1301 | the fleet is left as its ticks up to the first stop leave it, and the log grows by exactly their checks and spawns and the check that ended the loop |
| Fleet.Supervisor.AwaitGate | weles/src/supervisor.rs:1194-1231 | the gate ends interrupted exactly if the first iteration that decides sees a stop, up exactly if it sees a running and ready process and no stop, failed otherwise; the log holds one stop check per iteration |
| Fleet.Supervisor.BootService | weles/src/supervisor.rs:1173-1231 | the record, the outcome and the logged stop checks and spawn are those of the service's own boot |
| Fleet.Supervisor.BootFleet | weles/src/supervisor.rs:1166-1231 | boot is in order and stops at the first service that is not up; outcome, records and log are a function of the answers, and services after that one are untouched |
| Fleet.Supervisor.BootAndMonitor | weles/src/supervisor.rs:953-967 | outcome, records and log of boot and monitor together; the fleet is shown running exactly if it was monitored |
| Fleet.Supervisor.StopService | weles/src/supervisor.rs:1441-1499 | one record is torn down and no other; a stop is shown as stopping first and logged; clean exactly if confirmed |
| Fleet.Supervisor.StopAll | weles/src/supervisor.rs:1441-1499 | every record is torn down once, in reverse order, and the result is clean exactly when every held process not seen to have exited was confirmed stopped |
| Fleet.Supervisor.Teardown | weles/src/supervisor.rs:1441-1514 | the terminal status asked for is published exactly when every stop was confirmed, else failed |
| Fleet.Supervisor.RunFleet | weles/src/supervisor.rs:700-1010 | a run succeeds exactly when the last published status is stopped, which for one that reaches boot is exactly when boot, as the answers decide it, did not fail and every stop was confirmed; a run that saw a stop anywhere succeeds exactly when every stop was confirmed; the records and the whole log are a function of the answers for all three outcomes of boot; once stop is set at most one spawn completes; at the end no slot holds a process and every status is final; an early failure leaves the status starting |
| FleetLog.StopsInReverse | weles/src/supervisor.rs:1441-1499 | exactly the held, unexited processes are stopped, each once, in reverse spawn order, after everything else |
| Fleet.LifecycleOrder | weles/src/supervisor.rs:981-1009 | published fleet statuses never go back, from stopping to running or from running to starting, and a terminal one is the last |
| Poller.WrapIsRemainder | weles/src/supervisor.rs:355-363 | the wrapped index is the remainder by the fleet size |
| Poller.NextProbeIsNearest | weles/src/supervisor.rs:355-363 | the next probe goes to the healthy service nearest after the cursor, the cursor itself last, and to none exactly if none is healthy |
| Poller.NoStarvation | weles/src/supervisor.rs:429-476 | whatever happens to the others between polls, a service that stays healthy is probed within as many polls as it lies after the cursor, so within a fleet size |
| Poller.OneRound | weles/src/supervisor.rs:429-476 | with an unchanging mask of H healthy services, any H polls probe each of them once |
| Poller.FairShares | weles/src/supervisor.rs:429-476 | with an unchanging mask, k rounds probe every healthy service exactly k times and an unhealthy one never |
| Poller.LastEventDecides | weles/src/supervisor.rs:343-349 | the last thing that happened to a service decides its slot: unhealthy blanks it, a ready answer makes it ready, any other answer degraded, no listener unreachable |
| Poller.ReadinessPoller | weles/src/supervisor.rs:429-476 | after any polls each slot is blank if its service was unhealthy at the last one, else holds the newest verdict since it was last blank |
| PortMint.DrawFreePort | weles/src/supervisor.rs:1131-1147 | the first usable answer is taken and reserved; failure is an allocator error or exactly a thousand unusable answers in a row |
| PortMint.SeedReserved | weles/src/supervisor.rs:1074-1091 | the agent's port and every literal port of the fleet are off limits from the start |
| PortMint.MintFleetPorts | weles/src/supervisor.rs:1074-1126 | for every fleet and every allocator: literals are untouched, every minted field and no other is replaced, assignments are exactly those due, their ports are the allocator's first usable answers one after the other, nonzero, pairwise distinct and disjoint from port 8300 and every literal port; failure comes after exactly such draws, from an allocator error or a thousand unusable answers in a row |
| PortMint.AnswersDetermine | weles/src/supervisor.rs:1131-1147 | which ports are handed out, and after how many calls, is a function of the allocator's answers and of what is taken |
| PortMint.AssignmentsMean | weles/src/supervisor.rs:1092-1126 | an assignment is made exactly for each minted http or edge field: under the service's name and `:http` or `:edge`, with the port written into that field, for its provider or else its name, alive |
| PortMint.AssignedInOrder | weles/src/supervisor.rs:1092-1126 | ports are drawn in the order of the services, http before edge |
| PortMint.FreshPortsAreDistinct | weles/src/supervisor.rs:1131-1147 | ports handed out one after the other, each usable when drawn, are nonzero, outside what was taken, and pairwise distinct |
| PortMint.LiteralsMean | weles/src/supervisor.rs:1078-1091 | the ports off limits are exactly those some service has literally for http, edge or players |
| PortMint.DueIdsUnique | weles/src/supervisor.rs:1092-1126 | with unique service names the assignment ids are unique |
| PortMint.MintIsComplete | weles/src/supervisor.rs:1074-1126 | after a pass nothing is left to mint and there is one assignment per minted field |
| Frames.ReadExactBounded | weles/src/control.rs:348-373 | success yields exactly the next n bytes of the channel; failure has consumed fewer and names its cause: the first stop, the first hard error, or the deadline; undisturbed rounds succeed, whatever the chunking |
| Frames.WriteAllBounded | weles/src/control.rs:375-393 | success appends exactly the bytes; failure leaves a proper prefix and names its cause; undisturbed rounds succeed |
| Frames.Be32KeepsOrder | weles/src/control.rs:326-346 | lengths are ordered as their four bytes are, so the most significant byte comes first |
| Frames.UniqueDecoding | weles/src/control.rs:326-346 | a channel decodes into one first frame in one way only |
| Frames.ReadFrame | weles/src/control.rs:326-336 | a payload is never shortened, lengthened or shifted; a bad length is refused only where no frame starts; a whole frame read without disturbance is decoded |
| Frames.WriteFrame | weles/src/control.rs:338-346 | refused exactly for an empty payload or one over 65536 bytes, and then nothing is written; failure later leaves a proper prefix of the frame |
| Frames.FramesArriveIntact | weles/src/control.rs:326-393 | whatever is decoded from the frames of a sequence and perhaps a fragment of one more is a prefix of that sequence, and the wire is left exactly after it |
| Frames.ReadFrames | weles/src/control.rs:326-373 | reading until a failure yields payloads decoded one after the other; undisturbed, exactly the sequence sent |
| Frames.WriteFrames | weles/src/control.rs:338-393 | writing until a failure leaves the frames of the payloads sent and a fragment of the next |
| DownRace.WaitForTerminal | weles/src/control.rs:201-227 | the polling loop reports a clean stop, a failure or a timeout exactly if the first poll that does not see the fleet go on reads stopped, reads failed, or does not exist |
| DownRace.FirstToSeeReports | weles/src/control.rs:201-249 | whatever the file and the process do, the first poll that does not see the fleet go on decides by what it reads in the end: stopped, failed, unreadable, or a premature exit |
| DownRace.TimesOutIff | weles/src/control.rs:201-227 | the client times out exactly if there is no such poll in time |
| DownRace.PrematureOnlyOnEvidence | weles/src/control.rs:201-249 | a premature exit is reported only if the state loaded after the supervisor was found dead is not terminal |
| DownRace.DownReportsTheLastWord | weles/src/control.rs:201-249 | in every interleaving a client that sees the end in time reports a clean stop exactly if the supervisor's last word is stopped, a failure exactly if it is failed, and a premature exit exactly if it is neither; otherwise it times out |
| DownRace.LastCheckpointIsTheLastWord | weles/src/control.rs:201-227 | a supervisor whose checkpoints follow the lifecycle, as those of every run do, exits leaving its last checkpoint as its last word |
| DownRace.DownAfterRun | weles/src/control.rs:201-249 | `down` reports a clean stop only if the run succeeded; if it sees the end in time, exactly then, a failure exactly if the run failed with a terminal checkpoint, and a premature exit exactly if it left none, as an early failure does |
| DownRace.SecondLoadMattersIff | weles/src/control.rs:211-219 | a client with one load per poll reports something else exactly when a deciding poll is overtaken: not terminal, then dead, then terminal or gone |
| DownRace.SecondLoadIsNeeded | weles/src/control.rs:211-219 | an orderly supervisor that publishes and exits between load and probe is reported as stopped, and as a premature exit by the client with one load |
| Staging.HexDigestInjective | weles/src/prep.rs:830-837 | equal hex spellings mean equal digests |
| Staging.HexDigestSpells | weles/src/prep.rs:830-837 | two lower-case digits per byte, in the order of the bytes, the high one first |
| Staging.CopyAndHash | weles/src/prep.rs:758-803 | for every chunking, success copies exactly the source and reports its digest and length; a failure to open or create leaves no file, any later one a prefix |
| Staging.HashFile | weles/src/prep.rs:809-825 | for every chunking, the digest and length of the whole file, as the copy reports them, or a failure to open or read it |
| Staging.VerifyGeneration | weles/src/prep.rs:852-896 | passing means every recorded artifact is there unchanged; an unchanged generation read without trouble passes |
| Staging.StagedIsIntactIffConsistent | weles/src/prep.rs:426-580 | for paths that lead to entries of the directory, the directory a complete deploy leaves, manifest and all, verifies exactly when no two files written lead to one entry with different contents |
| Staging.EntriesCollide | weles/src/prep.rs:474-498 | a package whose path leads to the entry of another file written, of another length, makes the generation fail verification |
| Staging.IntactHoldsStagedBytes | weles/src/prep.rs:852-896 | a generation that verifies holds exactly the staged bytes, or exhibits a collision of SHA-256 |
| Staging.FleetNameCollides | weles/src/prep.rs:504-521 | a package called `fleet.toml` or `./fleet.toml`, of another length than the fleet definition, makes the generation fail verification |
| Staging.ManifestNameCollides | weles/src/prep.rs:545-548 | so does a package called like the manifest, of another length than the manifest written |
| Generations.NumberIsFreshIff | weles/src/prep.rs:926-936 | the next number was never used before exactly when the scan sees the highest one |
| Generations.StepKeepsNumbers | weles/src/prep.rs:926-936 | with complete scans every step keeps the numbers in order, misread pins and stray paths included |
| Generations.StepKeepsInv | weles/src/prep.rs:426-580 | with complete scans, names apart and no stray copy every step keeps the whole invariant, misread pins included |
| Generations.RunKeepsInv | weles/src/prep.rs:639-711 | so does every interleaving, with a stop allowed after any step |
| Generations.RunKeepsLock | weles/src/supervisor.rs:758-790 | a pinned supervisor holds the rollout lock and the state file names its pin, in every interleaving without any hypothesis |
| Generations.StampedVerifiesIff | weles/src/prep.rs:540-550 | a stamped generation holds exactly the files written and verifies exactly when their paths do not clash |
| Generations.CurrentAlwaysVerifies | weles/src/prep.rs:942-949 | in every history with complete scans, names apart and no stray copy, `current` is absent or names a generation whose manifest is complete and matches its files; pins may be misread |
| Generations.OnlyFlipsMoveCurrent | weles/src/prep.rs:942-949 | in every history, a deploy or rollback that stops before its flip leaves `current` alone |
| Generations.NumbersAreNeverReused | weles/src/prep.rs:926-936 | in every history with complete scans a deploy's number exceeds every number that was ever on disk |
| Generations.SpawnsRunVerifiedBytes | weles/src/prep.rs:253-256 | with complete scans and no stray copy, every spawn and respawn of one supervisor runs exactly the bytes it verified at discover or finds no file, even when a misread pin let its generation be deleted |
| Generations.PinsWhatCurrentNamed | weles/src/prep.rs:289-312 | in every history, the generation a supervisor reads, verifies and pins is the one `current` named when it last read it |
| Generations.Discovered | weles/src/prep.rs:170-184 | behind every verified supervisor there is a read of `current` and a later verification: its generation is what `current` named at the first, its bytes are what was on disk at the second, and they were intact |
| Generations.SpawnsRunCurrentBytes | weles/src/prep.rs:170-184 | with complete scans and no stray copy, whatever a spawn or respawn finds at a path is exactly what the generation named by `current` held there when the supervisor read `current`, and what it verified |
| Generations.PinnedGenerationSurvives | weles/src/prep.rs:1011-1052 | from its critical checkpoint to its terminal one, a supervisor's generation is never removed nor changed, whatever deploys, rollbacks and deletions interleave, as long as no deploy takes a number on disk, no copy strays and the pin is re-read reliably before each deletion |
| Generations.PinSafety | weles/src/supervisor.rs:758-790 | the same from an empty deploy directory on, with complete scans up to the checkpoint |
| Generations.TerminalReleasesPin | weles/src/prep.rs:965-971 | once a supervisor has published a terminal state, no read sees a live pin until another checkpoints one |
| Generations.CopyTouchesPinIff | weles/src/prep.rs:474-498 | a copy changes the pinned generation exactly when its path leads out of the directory being staged to an entry of the pinned one that held something else |
| Generations.PinProtectsIffReadIsRight | weles/src/prep.rs:965-971 | a deletion spares the pinned generation exactly when the state file loads and its supervisor is probed alive |
| Generations.RollbackTargetAtRiskIff | weles/src/prep.rs:699-709 | exactly when a rollback marks its own target for deletion |
| Generations.UnprotectedBeforeCheckpoint | weles/src/supervisor.rs:758-790 | between discover and the critical checkpoint a rollback to `current` can delete the generation, with every read and scan in order |
| DeployCommands.NextGeneration | weles/src/prep.rs:926-936 | one more than the highest present, so above everything scanned |
| DeployCommands.PredecessorGeneration | weles/src/prep.rs:735-754 | the greatest generation below `current` that has a manifest, and none only if there is none |
| DeployCommands.Store.DeleteStale | weles/src/prep.rs:1028-1051 | exactly what is marked, not freshly pinned and deletable is removed, and of the undeletable exactly what resisted remains |
| DeployCommands.Store.PruneStaleGenerations | weles/src/prep.rs:1011-1052 | exactly the scanned generations that are neither protected, nor pinned at the snapshot or the re-read, nor undeletable are removed; what is protected is untouched |
| DeployCommands.Store.CopyAll | weles/src/prep.rs:470-530 | every planned file is attempted; unless the deploy is marked as failed every source was there and the directory holds exactly its bytes; undisturbed copies of present files do not fail; no generation changes but the new one and those a path leads into |
| DeployCommands.Store.StampAndFlip | weles/src/prep.rs:540-550 | a manifest that cannot be written or a flip that fails leaves `current`; otherwise the manifest is in place before the flip |
| DeployCommands.Store.Deploy | weles/src/prep.rs:426-580 | a refused deploy changes nothing; one whose copies, manifest or flip fail leaves `current` and every other generation that no path leads into; a successful one flips to the staged generation, whose contents are stated, and leaves exactly the protected ones; the invariant is kept |
| DeployCommands.Store.Rollback | weles/src/prep.rs:639-711 | a failed rollback changes nothing; a successful one flips to a verified target, the predecessor of `current` unless one was named, and leaves exactly the protected generations; an intact target, named or default, read without trouble succeeds; the invariant is kept |
| DeployCommands.RetentionIsExact | weles/src/prep.rs:978-986 | with complete scans and accurate reads, whether or not a supervisor lives: what survives a deploy is itself, the old `current`, the generation in use if any, and the undeletable; what survives a rollback is everything from its target up and those |
| DeployCommands.NewGenerationHolds | weles/src/prep.rs:470-550 | a deployed generation holds the manifest, at each other entry the file planned last for it, and elsewhere what was there before |
| GenerationNames.NameRoundTrip | weles/src/prep.rs:900-902 | a generation's name parses to its number exactly as far as 64 bits reach |
| GenerationNames.OwnNameIff | weles/src/prep.rs:900-902 | a name that parses is its number's own name exactly when spelled canonically |
| GenerationNames.BothSpellingsAgree | weles/src/prep.rs:717-726 | both spellings of a target, however padded, mean the same generation |
| GenerationNames.NormalizeIsCanonical | weles/src/prep.rs:717-726 | whatever is accepted is the own name of a generation |
| GenerationNames.CalledIsAccepted | weles/src/prep.rs:717-726 | every target that is a number within 64 bits, or `gen-` and such a number, perhaps with a plus sign and however padded, is taken for that generation |
| GenerationNames.AcceptedIsCalled | weles/src/prep.rs:717-726 | and nothing else is accepted |
| Borrow.MarkersSeparateRoles | weles/src/lock.rs:629-638 | roles of one lease never share a marker |
| Borrow.MarkersSeparateLeases | weles/src/lock.rs:629-638 | run ids without dots: markers agree exactly when run id, start time and role do |
| Borrow.DottedRunIdsCollide | weles/src/lock.rs:669-680 | valid identifiers with dots under which two leases share a marker, whose name is given |
| Borrow.RefusedBorrowTouchesNoMarkerIff | weles/src/lock.rs:568-594 | a refused borrow leaves holder, existing metadata and processes alone, and every marker exactly when the created marker's follow-up did not fail |
| Borrow.AdmissionsNeedDeletions | weles/src/lock.rs:568-594 | over any run at all, a role of a lease is admitted at most once per absence of its marker |
| Borrow.OneShotBorrow | weles/src/lock.rs:520-594 | while its lender holds the lock, a role is admitted at most once, plus once per time the lender itself reopened it |
| Borrow.TenureDeletions | tools/processctl/src/lock.rs:509-538 | during a tenure only the lender's own retries delete its markers, although earlier owners may still be cleaning up |
| Borrow.NobodyIsAdmitted | weles/src/lock.rs:520-594 | over any run, nobody is admitted to a role of a lease while at every moment its owner's process is gone or its number another's, the lock is free, the lock file does not carry the lease, or the role is claimed; nor ever to a role the lease does not list |
| Borrow.OwnerAwayAdmitsNobody | weles/src/lock.rs:552-564 | so a recycled process number admits nobody |
| Borrow.FreeLockAdmitsNobody | weles/src/lock.rs:565-572 | nor does a lease while the lock is free |
| Borrow.UnpublishedAdmitsNobody | weles/src/lock.rs:540-550 | nor one that the lock file does not carry, within its bound and version |
| Borrow.OtherwiseAdmitted | weles/src/lock.rs:520-594 | whenever none of these holds, an attempt with the lease's credential and no I/O failure is admitted |
| Borrow.OnlyDroppedLeasesAreReaped | tools/processctl/src/lock.rs:509-538 | only an owner that dropped its lock cleans up; one that died leaves its markers |
| Borrow.CollisionReopensRole | tools/processctl/src/lock.rs:509-538 | with a shared marker, cleaning up after another lease lets a role be borrowed twice |
| Borrow.CollisionHappens | tools/processctl/src/lock.rs:509-538 | a run from an empty world in which that happens |
| Borrow.AdmittedUnderItsLender | weles/src/lock.rs:536-566 | in every reachable state, whether or not leases share markers, an admission is one under the very lender that published the lease, exactly unless the lock's new holder has not rewritten the metadata |
| Borrow.EndedLeaseCanBeBorrowed | weles/src/lock.rs:657-664 | that exception is reachable |
| RolloutLock.Process.ReadOwnerLease | weles/src/lock.rs:597-622 | a lease is read exactly when the file is there, within bounds, of the right version and shape; a missing file is created empty |
| RolloutLock.Process.IsLockedByOther | weles/src/lock.rs:657-664 | the probe answers whether the lock is held and leaves it as it was |
| RolloutLock.Process.CreateConsumptionMarker | weles/src/lock.rs:876-895 | exclusive creation, which stays even if finishing the marker fails |
| RolloutLock.Process.ValidateCredential | weles/src/lock.rs:520-594 | a lease comes out exactly when, field by field, version, role, metadata, owner identity, held lock and unclaimed marker check out and no I/O fails, and the world moves as one borrow attempt |
| RolloutLock.Process.CredentialFromBytes | weles/src/lock.rs:490-498 | the same for any bytes: bound, version, then shape |
| RolloutLock.Process.ConsumeInherited | weles/src/lock.rs:474-481 | one process consumes its credential at most once, whatever comes of it |
| RolloutLock.Process.BorrowInheritedIfPresent | weles/src/lock.rs:459-471 | "none present" comes out exactly when the process was not started as a borrower |
| RolloutLock.Process.Acquire | weles/src/lock.rs:108-155 | the lock is taken exactly when free and rewritable; failing changes neither holder nor markers |
| RolloutLock.Process.LeaseFrom | weles/src/lock.rs:433-450 | acquire is entered exactly for "none present"; an error stays an error |
| RolloutLock.Process.AcquireOrBorrow | weles/src/lock.rs:420-450 | a process started as a borrower never calls acquire; whoever gets a lease is inside a held rollout; failing changes no holder |

## Left out

- Platform code (file locks, pipes, peer credentials, process observation, signals, permissions) is a set of abstract operations with arbitrary or stated answers.
- `agentapi.rs`, `pgfloor.rs`, `health.rs`, `cli.rs`, `main.rs`, `fixture.rs`, prepare hooks, environment composition and `status` rendering would only add easy members.
- JSON parsing is represented by its result: absent, malformed, of another version, or parsed. The text of a manifest is an uninterpreted function of it, and that the text written parses back to it is a hypothesis where it is needed.
- SHA-256 is an uninterpreted function; no property of it is assumed.
- Generation numbers, ports' counters, restart counters and failure counts are unbounded; the 64-bit and 32-bit widths appear only in the parsing of names and in the frame length.
- The deploy history, its pruning and its failure modes are not modelled, nor is the guard against deploying a directory onto itself.
- Reading the pin again and removing the directory are one step, as are all the reads of one borrow attempt; the brief hold of the lock by the borrower's own probe is not visible to others.
- A checkpoint that cannot be written to disk: the published snapshots are those the supervisor attempts to publish.
- Latency: deadlines are arbitrary failure points. A script of channel rounds or polls that runs out stands for the deadline.
- A credential that names another lock file than the one modelled.
- `classify`, `response`, `identity_plausible` and the control server's threads.
- Poller.FairShares: speaks of an unchanging set of healthy services; for changing sets Poller.NoStarvation gives the bound.
- Generations.PinnedGenerationSurvives: assumes that no deploy takes a number on disk, no copy strays into another generation, and the state file loads and a live supervisor is probed alive right before each deletion; Generations.NumberIsFreshIff, Generations.CopyTouchesPinIff and Generations.PinProtectsIffReadIsRight show that each is needed.
- Generations.NumbersAreNeverReused: assumes complete directory scans; Generations.NumberIsFreshIff gives the exact condition.
- Staging.StagedIsIntactIffConsistent: assumes paths that lead to entries of the directory; what verification finds at a path that leads elsewhere is left open. Paths are separated by slashes, and symbolic links are not modelled.
- Borrow.OneShotBorrow: assumes that a newly published lease shares no marker with one still being cleaned up; Borrow.DotFreeLeasesAreApart says when that holds.

# CloudGate protocols in Dafny

CloudGate publishes self-hosted services: it supervises tunnel daemons, writes DNS records and nginx
files, gates logins, issues certificates, updates itself, and backs itself up. This project models the
parts of it that keep state over time, and proves what they promise over every input, every run, or every
reachable state. `dafny verify dfyconfig.toml` checks everything.

Each module follows one component.

| file | component |
|---|---|
| `SupervisorModel.dfy`, `SupervisorTheorems.dfy`, `Supervisor.dfy` | the supervisor of a daemon: start, stop, crash backoff, health polls |
| `LoginThrottle.dfy`, `CertCooldown.dfy` | bounded and pruned maps that stand for a full history |
| `DnsOwnership.dfy`, `DnsInterleaving.dfy` | which host row holds which DNS record, across deploy, edit, toggle, delete; whole requests, and requests split at their awaits |
| `SetupMutex.dfy` | creation of the first administrator by concurrent callers |
| `Csv.dfy` | the bulk-import reader, against a printer of RFC 4180 |
| `ZoneSync.dfy` | the zone list of an account, with host references |
| `Updater.dfy`, `UpdaterInterleaving.dfy`, `Versions.dfy` | the self-update pipeline, alone and overlapping, and the choice of a release |
| `Sessions.dfy` | token revocation and one-time codes |
| `DnsVerify.dfy` | the DNS polling loop |
| `NginxConfig.dfy`, `NginxInterleaving.dfy` | transactional writes of per-host nginx files, alone and overlapping, and the sanitisers |
| `Archive.dfy` | backup and restore, encrypted secrets |
| `ApiKeys.dfy` | random strings, the key format, which keys are live |
| `Prelude.dfy`, `Text.dfy` | options, sequences, JavaScript string functions |

The components share a shape. A datatype holds the state; functions give the effect of each call or
callback; lemmas speak about whole runs of them; and a class holds the fields the source updates in
place, with a method for each of its operations whose contract equates the new state with the function
of the old one. Beside the functions, lemmas and contracts named `...Exactly` say outright, without naming
them, what each operation does, which failures it has and what it leaves alone. Where concurrency matters it is a transition system: the code between two awaits is one event,
and the environment picks which enabled event comes next and when. The other modules take whole calls as
events, and "Left out" says so. What the operating system, Cloudflare, GitHub,
nginx, gpg, hash functions and ciphers answer is an argument, so that every theorem covers every answer.

Some properties one would expect do not hold of the code. They are stated with the exact condition.

- The supervisor can report running with nothing running: a health answer that arrives after the exit sets
  the status (`packages/backend/src/services/managed-process.ts:298-300`), against the status cycle in the
  comment at lines 10-18. `StatusIsTruthfulExactly`, `LateHealthMisreports`.
- A spawn that throws leaves neither a child nor a pending respawn, and a child whose exit is never reported is
  never replaced. `SupervisionIsNeverLost`, `NoExitNoReplacement`.
- A record is lost when Cloudflare refuses a delete while its host is deleted or moved to another zone, and when a
  zone with live records is pruned (`EveryRecordIsOwned`); when two deploys of a host without a live record overlap
  and both succeed (`OverlapExactly`); and when a background deploy writes its id after the row was deleted, moved
  or given another record, or the process restarts before it does (`EveryRecordIsKept`). Disabled hosts can hold
  records: `deployHost` does not look at `enabled`.
- The issuance cooldown ignores a request recorded at time 0, since 0 counts as no attempt
  (`packages/backend/src/services/acme.ts:161`); this matters exactly to requests in the ten minutes after it.
  `EpochIsNotCooled`.
- The update lock stays behind if the staging directory cannot be created, since that is between the lock and
  the try block (`packages/backend/src/services/updater.ts:438-452`), and if deleting it fails, which is
  swallowed (lines 334-343). `LockLeaksExactly`.
- The update lock does not keep two installs from being dispatched within 30 minutes if they acquire it at the same
  moment, since the check and the write are apart (lines 319-331), or if an install that is past its 30 minutes
  fails, since it deletes whatever lock is there (lines 334-343). `LockWorksExactly`,
  `OverlappingAcquiresBothDispatch`, `LateFailureLetsTwoDispatch`.
- A login that was checked against the old password and is issued after the change gets a token that the change does
  not revoke. `OldPasswordExactly`.
- A one-time code can be accepted twice if the second attempt is verified before and claimed after the end of
  its 30 seconds, since the step is taken from the clock and not from the code
  (`packages/backend/src/services/auth.ts:204-223` says each code is used once). `ReplayExactly`,
  `NoCodeTwiceExactly`.
- A password change that asks for an email in use answers 409 after the password has been changed and hands no
  token back (`packages/backend/src/routes/auth.ts:197-214`). `PostPassword`.
- A failed nginx test leaves the new file in place if the rollback fails too (`TransactionalExactly`), and the
  rejected text of an overlapping write of the same host if the snapshot was taken of that (`ExcusedExactly`). A text
  reported as deployed can be undone by an overlapping write (`FilesAreLastReportsExactly`).
- An export with nothing to export has sent its header already (`packages/backend/src/routes/backup.ts:77-89`).
  `EmptyBackupIsTooShort`.
- `getLogs(0)` returns the whole buffer. `GetLogs`.

The comments in `packages/backend/src/services/api-keys.ts:46-52` speak of 55 characters and a limit of 220; the
alphabet in the code has 57, which makes the limit 228. The model follows the code.

## Model

| member | source | states |
|---|---|---|
| `SupervisorTheorems.AtMostOneProcessLives` | packages/backend/src/services/managed-process.ts:195-257 | In every reachable state at most one spawned process has not exited, a child and a pending respawn never coexist, at most one backoff timer is armed, and the orphan-kill branch has never run |
| `SupervisorTheorems.OnlyStoppedProcessesAreKilled` | packages/backend/src/services/managed-process.ts:133-143 | SIGKILL goes only to the current, living child, and only while a stop is in force |
| `SupervisorTheorems.SupervisionIsNeverLost` | packages/backend/src/services/managed-process.ts:112-121 | From a start that takes effect until the next stop, exactly one of "child set" and "respawn pending" holds, if and only if the latest spawn did not throw, which leaves neither; no spawn of the run throwing is enough |
| `SupervisorTheorems.NoExitNoReplacement` | packages/backend/src/services/managed-process.ts:225-235 | While no exit of the current child is reported, as after a spawn that failed, nothing else is ever spawned, whatever is called, and no stop resolves |
| `SupervisorTheorems.StopIsFinal` | packages/backend/src/services/managed-process.ts:123-143 | After a stop no process is spawned and no backoff timer is armed until a later start takes effect |
| `SupervisorTheorems.StopResolvesAtRest` | packages/backend/src/services/managed-process.ts:133-138 | A stop promise resolves only with no child, nothing scheduled, status stopped, and every process ever spawned gone |
| `SupervisorTheorems.StopResolvesOnExit` | packages/backend/src/services/managed-process.ts:128-138 | A stop is unresolved only while there is a child, and the exit of that child resolves every stop outstanding |
| `SupervisorTheorems.StoppedProcessesAreAsked` | packages/backend/src/services/managed-process.ts:133-143 | In every reachable state a process that a stop waits for has been sent SIGTERM, and has been sent SIGKILL or has a timer armed that can fire and will send it |
| `SupervisorTheorems.StopAsks` | packages/backend/src/services/managed-process.ts:123-143 | A stop ends supervision and health checks; with a child it sends exactly one SIGTERM, arms one kill timer and waits, without one it is stopped and resolves |
| `SupervisorTheorems.KillTimerFires` | packages/backend/src/services/managed-process.ts:139-141 | The kill timer sends one SIGKILL exactly if its process is still the child, and nothing else changes |
| `SupervisorTheorems.ReloadSignals` | packages/backend/src/services/managed-process.ts:156-168 | A reload sends one SIGHUP exactly to a child that is running |
| `SupervisorTheorems.StartSpawns` | packages/backend/src/services/managed-process.ts:112-121 | A start without a child cancels the respawn and spawns the next process, which is starting; with a child it does nothing |
| `SupervisorTheorems.RespawnTimerSpawns` | packages/backend/src/services/managed-process.ts:249-252 | In every reachable state a backoff timer that fires was not overtaken by a stop or a start: it spawns the next process and leaves no timer armed |
| `SupervisorTheorems.ExitSetsStatus` | packages/backend/src/services/managed-process.ts:230-254 | After an exit of the child the status is stopped under a stop and error otherwise, and health checks cease |
| `SupervisorTheorems.HealthAnswerSetsStatus` | packages/backend/src/services/managed-process.ts:298-320 | The status after each answer of a health check: running, startup timeout, error, exception or no change |
| `SupervisorTheorems.CallbacksExactly` | packages/backend/src/services/managed-process.ts:225-298 | A failed spawn is an error, the grace period starts the health timer, and each tick asks exactly if there is a child |
| `SupervisorTheorems.CrashWaitsExactly` | packages/backend/src/services/managed-process.ts:242-253 | The crash with index j since the last reset arms exactly one timer, for min(1000 * 2^j, 60000) ms; the reset needs more than 60 s since the last spawn |
| `SupervisorTheorems.SixTakeAMinute` | packages/backend/src/services/managed-process.ts:242-252 | Any six successive respawns span at least 60 s, with or without backoff resets in between |
| `SupervisorTheorems.RespawnRateIsBounded` | packages/backend/src/services/managed-process.ts:242-252 | Under any interleaving, a half-open interval of T ms holds at most 5 * ceil(T / 60000) automatic respawns |
| `SupervisorTheorems.RespawnBoundIsReached` | packages/backend/src/services/managed-process.ts:242-252 | Five respawns in one minute do happen: a child that keeps crashing at once is respawned at 1, 3, 7, 15 and 31 s |
| `SupervisorTheorems.StatusIsTruthfulExactly` | packages/backend/src/services/managed-process.ts:295-320 | "running" is never reported without a child throughout a run if and only if no poll that settles to running settles while there is no child |
| `SupervisorTheorems.LateHealthMisreports` | packages/backend/src/services/managed-process.ts:295-302 | From every reachable state with a poll in flight, stop, exit and the late answer lead to status running with nothing running |
| `SupervisorTheorems.PollCanBeInFlight` | packages/backend/src/services/managed-process.ts:282-298 | Such states are reachable |
| `SupervisorModel.ExitKeepsInv` | packages/backend/src/services/managed-process.ts:230-254 | An exit, with the listeners of pending stops, keeps the whole invariant |
| `SupervisorModel.StepKeepsInv` | packages/backend/src/services/managed-process.ts:112-320 | Every event keeps the invariant: one living process, no leaked timer, supervision, accounted stops, doubling backoff |
| `Supervisor.ManagedProcess.Deliver` | packages/backend/src/services/managed-process.ts:112-320 | The object takes exactly the step of the transition system, so every valid object is in a reachable state |
| `Supervisor.ManagedProcess.Spawn` | packages/backend/src/services/managed-process.ts:195-257 | Kills an orphan if there is one and becomes starting with a fresh child; a spawn that throws leaves starting without a child |
| `Supervisor.ManagedProcess.Start` | packages/backend/src/services/managed-process.ts:112-121 | Does nothing with a child in place; otherwise cancels the respawn and spawns, and throws if the spawn does |
| `Supervisor.ManagedProcess.Stop` | packages/backend/src/services/managed-process.ts:123-143 | Ends supervision and health checks; resolves at once without a child, else sends SIGTERM, arms the kill timer and waits for the exit |
| `Supervisor.ManagedProcess.ProcessExited` | packages/backend/src/services/managed-process.ts:230-254 | The exit listener: forget the child, then settle at stopped or schedule the respawn |
| `Supervisor.ManagedProcess.ScheduleRespawn` | packages/backend/src/services/managed-process.ts:242-254 | Reset or keep the backoff, arm the timer for it, double it up to the cap |
| `Supervisor.ManagedProcess.OnExit` | packages/backend/src/services/managed-process.ts:134-137 | The listeners of pending stops run after the supervisor's own and leave the status at stopped |
| `Supervisor.ManagedProcess.OnRespawnTimer` | packages/backend/src/services/managed-process.ts:249-252 | The timer forgets itself and tries to spawn unless a stop intervened |
| `Supervisor.ManagedProcess.OnForceKillTimer` | packages/backend/src/services/managed-process.ts:139-141 | SIGKILL only if the child is still the one being stopped |
| `Supervisor.ManagedProcess.OnGraceTimer` | packages/backend/src/services/managed-process.ts:282-286 | The health timer starts once, however many grace periods end |
| `Supervisor.ManagedProcess.Poll` | packages/backend/src/services/managed-process.ts:295-298 | A health check is asked for only with a child in place |
| `Supervisor.ManagedProcess.HealthSettled` | packages/backend/src/services/managed-process.ts:298-320 | The status after the answer, by previous status, answer, exception and time since the spawn |
| `Supervisor.ManagedProcess.HandleLog` | packages/backend/src/services/managed-process.ts:259-266 | Of a text split at LF and CRLF the non-empty lines are logged; the buffer always holds the last 1000 ever logged, in order |
| `Supervisor.ManagedProcess.GetLogs` | packages/backend/src/services/managed-process.ts:108-110 | The last n lines; asking for 0 returns them all |
| `LoginThrottle.SweepIsInvisible` | packages/backend/src/services/host-gateway.ts:112-115 | The sweeper changes no answer for any key, limit and later time |
| `LoginThrottle.NoteFailureAgrees` | packages/backend/src/services/host-gateway.ts:100-111 | Recording a failure keeps the map in agreement with the windows computed from the whole history, except for keys the bound pushes out |
| `LoginThrottle.PruningIsInvisible` | packages/backend/src/services/host-gateway.ts:93-115 | After any run the map blocks a key that was never pushed out if and only if a running window over all failures of the run is full, and it never tracks more than 10000 keys |
| `LoginThrottle.UncrowdedKeysAreExact` | packages/backend/src/services/host-gateway.ts:103-108 | The same for every key after none of whose failures in the run 9999 other keys failed: such a key is never pushed out |
| `LoginThrottle.HistoryIsTheFailures` | packages/backend/src/services/host-gateway.ts:302-304 | What is recorded over a run is, in order, one failure of the address and one of the host for each attempt that settled without success |
| `LoginThrottle.SubmitExactly` | packages/backend/src/services/host-gateway.ts:290-294 | By the failed attempts of the run alone: an attempt is turned away if and only if ten failures of its address or sixty of its host are in a running window, is in flight otherwise, and changes nothing else |
| `LoginThrottle.WindowMeaning` | packages/backend/src/services/host-gateway.ts:96-111 | The window of a key is the one its latest window-opening failure started, with all its failures in the 15 minutes from there; there is none exactly without a failure |
| `LoginThrottle.BlocksExactly` | packages/backend/src/services/host-gateway.ts:96-99 | A window blocks exactly when a running one holds as many failures as the limit |
| `LoginThrottle.NotedExactly` | packages/backend/src/services/host-gateway.ts:100-111 | A failure adds one to a running window; otherwise it starts one of 15 minutes, and a map of 10000 entries loses its oldest first |
| `LoginThrottle.SlidingBound` | packages/backend/src/services/host-gateway.ts:96-111 | If no fixed window counts more than c failures, no 15-minute interval at all holds more than 2c - 1 |
| `LoginThrottle.SlidingBoundIsReached` | packages/backend/src/services/host-gateway.ts:96-111 | For every c some history within that cap reaches 2c - 1, so the bound is the best one |
| `LoginThrottle.FailuresPerWindow` | packages/backend/src/services/host-gateway.ts:290-304 | In any run with at most c overlapping attempts on a key, any 15-minute interval holds at most 2 * (limit + c - 1) - 1 failed attempts on it, with limit 10 for an address and 60 for a host |
| `LoginThrottle.FailureMap.IsThrottled` | packages/backend/src/services/host-gateway.ts:96-99 | Blocked exactly by an unexpired window that is at the limit |
| `LoginThrottle.FailureMap.Note` | packages/backend/src/services/host-gateway.ts:100-111 | New window or one more failure; the oldest entries go first when the map is full |
| `LoginThrottle.FailureMap.SweepExpired` | packages/backend/src/services/host-gateway.ts:112-115 | Exactly the expired entries go, and the order of the others is kept |
| `CertCooldown.FreshSummarises` | packages/backend/src/services/acme.ts:146-150 | Pruning keeps the map a summary of all accepted requests |
| `CertCooldown.CoolingExactly` | packages/backend/src/services/acme.ts:157-162 | A hostname cools if and only if a request for it was accepted less than ten minutes ago at a time other than 0 |
| `CertCooldown.NextRequestExactly` | packages/backend/src/services/acme.ts:143-170 | Over any sequence of requests each is accepted unless one accepted before it, and not at time 0, is less than ten minutes old |
| `CertCooldown.AcceptKeepsSpaced` | packages/backend/src/services/acme.ts:157-169 | Accepting a request that is not cooling keeps accepted requests for one hostname ten minutes apart |
| `CertCooldown.AcceptedAreSpaced` | packages/backend/src/services/acme.ts:143-170 | Over any sequence of production requests the accepted ones for one hostname are at least ten minutes apart, unless the earlier was at time 0 |
| `CertCooldown.EpochIsNotCooled` | packages/backend/src/services/acme.ts:157-169 | Over any sequence of production requests the accepted ones for one hostname are ten minutes apart, time 0 included, if and only if no request in the first ten minutes follows one for its hostname at time 0 |
| `CertCooldown.AcceptKeepsFullySpaced` | packages/backend/src/services/acme.ts:161 | One more request keeps that spacing if and only if it is not such a request |
| `CertCooldown.IssueGuard.Prune` | packages/backend/src/services/acme.ts:146-150 | The loop drops exactly the entries past the cooldown |
| `CertCooldown.IssueGuard.Request` | packages/backend/src/services/acme.ts:157-170 | Refused exactly when the whole history of accepted production requests is cooling; the minutes quoted are enough and one fewer is not; staging is never refused nor recorded |
| `DnsOwnership.EveryRecordIsOwned` | packages/backend/src/services/host-deploy.ts:172-262 | In any run of requests that nothing interrupts, from an empty installation, after every request each existing record CloudGate made is held by a host row in the record's zone, if and only if no request drops the last reference to a live record |
| `DnsOwnership.RequestKeepsOwned` | packages/backend/src/routes/hosts.ts:121-505 | Any single create, redeploy, edit, delete, toggle, prune or dashboard change keeps all records owned if and only if it is not one of the losing cases |
| `DnsOwnership.HolderIsUnique` | packages/backend/src/services/host-deploy.ts:259-262 | After any run no two host rows hold the same record id, live or stale |
| `DnsOwnership.ForeignRecordsAreUntouched` | packages/backend/src/services/cloudflare-client.ts:129-277 | No uninterrupted request ever edits, deletes or adopts a record CloudGate did not create |
| `DnsOwnership.DeployPublishes` | packages/backend/src/services/host-deploy.ts:134-137 | A successful deploy on a DNS-bound edge leaves the host holding exactly that record, deletes nothing, and adds nothing if it held a live one |
| `DnsOwnership.DeploySucceedsExactly` | packages/backend/src/services/host-deploy.ts:84-220 | A deploy succeeds if and only if the host exists, is not the recovery UI, and, for a tunnel host, has a tunnel whose provider answers with an edge that needs no record or whose record Cloudflare takes: known zone, usable token, no failing update of a stored id, no failing create without a live record; then the host holds exactly that record, and otherwise nothing changes |
| `DnsOwnership.UndeployExactly` | packages/backend/src/services/host-deploy.ts:502-515 | Exactly the record the host holds goes, if the token is usable and the delete does not fail |
| `DnsOwnership.DeleteExactly` | packages/backend/src/routes/hosts.ts:442-444 | The row goes, and with it that record |
| `DnsOwnership.ToggleExactly` | packages/backend/src/routes/hosts.ts:464-479 | Enabling deploys; disabling a host with a tunnel removes its record; the flag is flipped and no other row changes |
| `DnsOwnership.CreateExactly` | packages/backend/src/routes/hosts.ts:121-196 | A host with a fit placement, a known zone and a free name gets the next id, is enabled, has no record yet, and is deployed; any other changes nothing |
| `DnsOwnership.PutExactly` | packages/backend/src/routes/hosts.ts:303-416 | A move is refused unless the tunnel is fit and the name belongs to the zone; accepted, it removes the old record, and a new zone forgets its id; then the row is deployed, moved or not |
| `DnsOwnership.RedeployAddsNothing` | packages/backend/src/services/host-deploy.ts:186-218 | Redeploying after a successful deploy changes nothing at all, whatever Cloudflare answers |
| `DnsOwnership.OverlapExactly` | packages/backend/src/services/host-deploy.ts:186-196 | Two deploys of one host that both read its row before either writes it lose a record if and only if the host had no live one, be its id missing or stale, and both writes get through, whatever Cloudflare answers to each |
| `DnsInterleaving.EveryRecordIsKept` | packages/backend/src/services/host-deploy.ts:84-262 | However handlers, background deploys, syncs, the dashboard and restarts interleave at their awaits, each existing record CloudGate made is at every moment in the row of its host or in a deploy that will write it there, if and only if no step loses one |
| `DnsInterleaving.StepKeepsExactly` | packages/backend/src/services/host-deploy.ts:84-262 | A step loses a given record if and only if it drops or re-zones the row that alone leads to it, gives up the deploy that alone leads to it, or writes an id to a row that is gone, is in another zone, or holds another live record |
| `DnsInterleaving.StepKeepsSound` | packages/backend/src/services/host-deploy.ts:172-262 | A record id is known only to the host it was made for and to deploys of that host |
| `DnsInterleaving.ForeignRecordsAreUntouched` | packages/backend/src/services/cloudflare-client.ts:129-277 | Nor does any single step of any interleaving, in any reachable state |
| `DnsInterleaving.UnchangedRowLosesNothing` | packages/backend/src/services/host-deploy.ts:259-262 | A deploy whose row is as it was when it was read loses nothing |
| `DnsInterleaving.DeletedRowLosesExactly` | packages/backend/src/routes/hosts.ts:442-444 | A deploy that ends after its row was deleted loses its record unless that is gone or another deploy wrote it too |
| `DnsInterleaving.DeployOverDelete` | packages/backend/src/routes/hosts.ts:406-444 | Every host without a live record can lose one in this way |
| `DnsInterleaving.RequestIsARun` | packages/backend/src/routes/hosts.ts:121-505 | Each request that nothing interrupts is one of the interleaved runs |
| `DnsOwnership.WriteDnsEffect` | packages/backend/src/services/host-deploy.ts:172-220 | Writing DNS for a host changes nothing, or gives that host one record, in place or fresh |
| `DnsOwnership.UndeployKeeps` | packages/backend/src/services/host-deploy.ts:502-515 | Undeploying never loses a record: it is deleted, or the row still holds it |
| `DnsOwnership.EditKeeps` | packages/backend/src/routes/hosts.ts:381-402 | The row update of an edit loses a record exactly when the zone changes over a record that is still there |
| `DnsOwnership.PutKeeps` | packages/backend/src/routes/hosts.ts:276-417 | The same for the whole edit, with teardown before and deploy after |
| `DnsOwnership.CreateKeeps` | packages/backend/src/routes/hosts.ts:121-196 | Creating a host never loses a record |
| `DnsOwnership.DeleteKeeps` | packages/backend/src/routes/hosts.ts:422-448 | Deleting a host loses a record exactly when its live record could not be deleted |
| `DnsOwnership.ToggleKeeps` | packages/backend/src/routes/hosts.ts:453-480 | Toggling never loses a record |
| `DnsOwnership.PruneKeeps` | packages/backend/src/services/cf-account.ts:142-147 | Pruning a zone loses records exactly when a host in it holds a live one |
| `DnsOwnership.Registry.UpsertRecord` | packages/backend/src/services/cloudflare-client.ts:129-173 | Update in place; on 404 create a fresh record; any other failure changes nothing |
| `DnsOwnership.Registry.DeleteDnsRecord` | packages/backend/src/services/cloudflare-client.ts:267-277 | Deletes the record of that zone; 404 is a success |
| `DnsOwnership.Registry.WriteDnsForEdge` | packages/backend/src/services/host-deploy.ts:172-220 | No record for host:port edges; otherwise the record is written in the host's zone and its id persisted |
| `DnsOwnership.Registry.DeployHost` | packages/backend/src/services/host-deploy.ts:84-167 | The order of refusals, and DNS written for tunnel hosts only |
| `DnsOwnership.Registry.UndeployHost` | packages/backend/src/services/host-deploy.ts:502-515 | Deletes the record it can reach and leaves the row alone |
| `DnsOwnership.Registry.PostHost` | packages/backend/src/routes/hosts.ts:153-196 | Insert then deploy; a taken hostname changes nothing |
| `DnsOwnership.Registry.CheckReassignment` | packages/backend/src/routes/hosts.ts:309-365 | Whether a reassignment is accepted |
| `DnsOwnership.Registry.PutHostById` | packages/backend/src/routes/hosts.ts:303-416 | Undeploy, update the row, deploy; the record id is reset only when the zone changes |
| `DnsOwnership.Registry.DeleteHostById` | packages/backend/src/routes/hosts.ts:442-444 | Undeploy, then drop the row, whatever became of the record |
| `DnsOwnership.Registry.ToggleHostById` | packages/backend/src/routes/hosts.ts:464-479 | Flips the flag; deploys, or undeploys a host with a tunnel |
| `SetupMutex.AtMostOneAdmin` | packages/backend/src/services/setup.ts:35-72 | For any number of callers and any interleaving the users table gains at most one row, and only if it was empty |
| `SetupMutex.CreatorInsertedItsOwnInput` | packages/backend/src/services/setup.ts:49-68 | The i-th caller gets a row only if that row, with the input of the i-th call and its email in lower case, is the whole table, and it is the only one that gets one |
| `SetupMutex.OutcomeExactly` | packages/backend/src/services/setup.ts:35-72 | What each finished caller is told, by the calls and throws of the run alone: failed if and only if its own section threw; created if and only if there was no account and every earlier caller threw; otherwise that setup is done |
| `SetupMutex.FirstCallerBecomesAdmin` | packages/backend/src/services/setup.ts:45-68 | When nothing throws and everybody has finished, the first caller created the only account and all others were told that setup is done |
| `SetupMutex.FailsExactly` | packages/backend/src/services/setup.ts:47-71 | A caller fails if and only if its own section throws |
| `SetupMutex.CallersAreTheCalls` | packages/backend/src/services/setup.ts:35-42 | The callers are the calls of the run, in order |
| `SetupMutex.RefusalsAreHonest` | packages/backend/src/services/setup.ts:50-53 | Nobody is told that setup is done while there is no account |
| `SetupMutex.SectionsAreExclusiveAndFair` | packages/backend/src/services/setup.ts:38-45 | Critical sections exclude each other and are entered in call order |
| `SetupMutex.NoDeadlock` | packages/backend/src/services/setup.ts:45-71 | While a caller is unfinished some step other than a new call is possible |
| `SetupMutex.RunsAreShort` | packages/backend/src/services/setup.ts:45-71 | Each step other than a call uses up one of at most three steps per caller |
| `SetupMutex.EverybodyFinishes` | packages/backend/src/services/setup.ts:37-72 | Once calls stop, a run that cannot be extended has settled every caller: everybody finishes if each critical section does |
| `SetupMutex.StepKeepsQueue` | packages/backend/src/services/setup.ts:38-45 | The promises stay one chain, resolved in call order |
| `SetupMutex.StepKeepsRows` | packages/backend/src/services/setup.ts:49-68 | The table stays the original rows plus at most the creator's row |
| `SetupMutex.SetupService.CreateInitialAdmin` | packages/backend/src/services/setup.ts:38-42 | A caller queues behind the current promise and leaves its own |
| `SetupMutex.SetupService.CheckCount` | packages/backend/src/services/setup.ts:50-53 | A non-empty table ends the attempt and releases |
| `SetupMutex.SetupService.InsertRow` | packages/backend/src/services/setup.ts:54-67 | One row with the caller's input; the lock is released |
| `Csv.ParseCsv` | packages/frontend/src/components/BulkImportModal.tsx:55-86 | The nested loop computes the reference reader: lines, quote state, trimming |
| `Csv.ReadQuoted` | packages/frontend/src/components/BulkImportModal.tsx:62-72 | Inside quotes the escaped text is read literally up to the closing quote |
| `Csv.ReadRow` | packages/frontend/src/components/BulkImportModal.tsx:58-83 | Reading a printed row gives its trimmed fields, quoted or not |
| `Csv.ReadingUndoesPrinting` | packages/frontend/src/components/BulkImportModal.tsx:55-86 | Reading undoes a printer after section 2 of RFC 4180 for every mix of quoted and unquoted fields, commas and doubled quotes included, with and without a final line break |
| `Csv.ReadRowsAreNormal` | packages/frontend/src/components/BulkImportModal.tsx:57-83 | Whatever the text, every row read has a field, and fields are trimmed and on one line |
| `Csv.QuotedTablesRoundTripExactly` | packages/frontend/src/components/BulkImportModal.tsx:55-86 | A table printed with every field quoted is read back unchanged if and only if each row has a field and every field is trimmed and free of line feeds |
| `Csv.RowToHost` | packages/frontend/src/components/BulkImportModal.tsx:100-109 | One object: non-empty cells under their names, then the defaults |
| `Csv.RowsToHosts` | packages/frontend/src/components/BulkImportModal.tsx:88-111 | The header decides the names; one object per data row |
| `Csv.FillLooksUp` | packages/frontend/src/components/BulkImportModal.tsx:102-104 | With distinct names an object holds exactly the non-empty cells under their own names |
| `Csv.HostExactly` | packages/frontend/src/components/BulkImportModal.tsx:100-109 | What a host says under each name: its last column of that name that is not empty, else the tunnel or the zone that was picked or the default mode, else nothing |
| `Csv.HostsExactly` | packages/frontend/src/components/BulkImportModal.tsx:93-100 | With hostname in the first row, in any case, that row names the columns of the others; otherwise every row is data under four fixed names |
| `Csv.ColumnOrderIsFree` | packages/frontend/src/components/BulkImportModal.tsx:93-110 | With a header of distinct names, permuting the columns of the whole table gives the same hosts |
| `ZoneSync.UpsertAllUpserts` | packages/backend/src/services/cf-account.ts:128-141 | The upserts keep every identity, add the listed ids, take the contents from the last entry, touch no other account |
| `ZoneSync.PruneKeepsRows` | packages/backend/src/services/cf-account.ts:142-147 | Pruning removes exactly the account's rows that are not listed |
| `ZoneSync.SyncPreservesIdentity` | packages/backend/src/services/cf-account.ts:121-150 | After a sync the account has exactly the listed zone ids, (account, zone id) and primary keys are unique, surviving rows keep their key, other accounts' rows are unchanged, and a host loses its zone exactly if that zone was pruned |
| `ZoneSync.SyncStampsRows` | packages/backend/src/services/cf-account.ts:126-140 | After a sync every zone of the account carries its time |
| `ZoneSync.ZonesAreThoseLastListed` | packages/backend/src/services/cf-account.ts:121-150 | After any sequence of syncs an account's zones are those of its last list |
| `ZoneSync.HostsKeepTheirZoneExactly` | packages/backend/src/services/cf-account.ts:142-147 | Through any sequence of syncs a host keeps its zone, under the same primary key, if and only if every list synced for that account has it |
| `ZoneSync.ZoneStore.SyncZonesForAccount` | packages/backend/src/services/cf-account.ts:121-150 | The loop and the delete do what one sync promises, and report the number of listed zones |
| `ZoneSync.ZoneStore.DeleteUnlisted` | packages/backend/src/services/cf-account.ts:142-147 | The delete with ON DELETE SET NULL |
| `ZoneSync.ZoneStore.InsertOrMerge` | packages/backend/src/services/cf-account.ts:129-140 | Insert, or merge into the row with the same account and zone id |
| `Updater.OverallIsMonotone` | packages/backend/src/services/updater.ts:140-142 | The rounded interpolation is monotone, stays within the step, and meets its ends |
| `Updater.OutcomeExactly` | packages/backend/src/services/updater.ts:413-576 | An install dispatches if and only if the version is valid, updates are enabled, no readable stamp younger than 30 minutes is there, staging works, the archive is complete, its hash is the non-empty first word of the checksum file, a signature, if any, is good, and the applier is there; what else it comes to and which lock it leaves, by the first of these that fails |
| `Updater.FirstWordExactly` | packages/backend/src/services/updater.ts:526 | The checksum compared is the first stretch of the file without white space |
| `Updater.UpdateService.AcquireUpdateLock` | packages/backend/src/services/updater.ts:317-332 | Refused exactly by a readable stamp younger than 30 minutes; otherwise the lock is ours, if nothing interrupts |
| `Updater.UpdateService.DownloadArchiveFile` | packages/backend/src/services/updater.ts:459-471 | Progress never decreases over the chunks, whatever length was announced |
| `Updater.UpdateService.Fetch` | packages/backend/src/services/updater.ts:452-517 | The archive and the checksum are mandatory, the signature is not |
| `Updater.UpdateService.Verify` | packages/backend/src/services/updater.ts:519-544 | Passes exactly for a matching non-empty checksum and, if signed, a good signature |
| `Updater.UpdateService.HandOff` | packages/backend/src/services/updater.ts:546-561 | The applier is started once, if it is there |
| `Updater.UpdateService.RunPipeline` | packages/backend/src/services/updater.ts:452-575 | The applier is started exactly when everything was downloaded and verified; progress climbs throughout |
| `Updater.UpdateService.TriggerInstall` | packages/backend/src/services/updater.ts:413-576 | For an install that nothing interrupts: the applier is started exactly when the lock was free and everything verified; a failure in the try block leaves no lock unless the file cannot be deleted; progress climbs within 0..100, from 2 to 65 if it is dispatched |
| `Updater.LockLeaksExactly` | packages/backend/src/services/updater.ts:334-445 | A failed install leaves the lock taken if and only if the staging directory could not be created, or the try block failed and the lock file could not be deleted |
| `Updater.LockGuards` | packages/backend/src/services/updater.ts:317-332 | After a dispatch its lock or a later one is in place until it is stale, whatever installs are tried one after the other |
| `Updater.DispatchesAreSpaced` | packages/backend/src/services/updater.ts:317-332 | Of installs that do not overlap, two that dispatch start at least 30 minutes apart unless the lock is removed in between |
| `UpdaterInterleaving.LockWorksExactly` | packages/backend/src/services/updater.ts:317-576 | For any number of installs, split at their awaits and interleaved at will, those that acquired the lock and are not over are 30 minutes apart and protected by it at every moment, if and only if no stamp is written while another install has passed the check less than 30 minutes later, or into a deleted file that no later stamp makes up for, and no lock is deleted while another install is fresh |
| `UpdaterInterleaving.StepGuardedExactly` | packages/backend/src/services/updater.ts:317-343 | The same for each single step |
| `UpdaterInterleaving.OneInsideExactly` | packages/backend/src/services/updater.ts:317-332 | At most one install is inside the try block throughout a run if and only if no stamp is written while another is inside |
| `UpdaterInterleaving.DisciplinedRunsExclude` | packages/backend/src/services/updater.ts:438-445 | If acquires do not overlap and none goes on while an install is past its 30 minutes, at most one install is inside, failing or being applied, and the lock is its own |
| `UpdaterInterleaving.OwnDeletionDoesNotBreak` | packages/backend/src/services/updater.ts:334-343 | Deleting the lock that holds one's own stamp takes it from no other fresh install |
| `UpdaterInterleaving.CarefulRunsAreSpaced` | packages/backend/src/services/updater.ts:317-343 | If acquires do not overlap and locks are deleted only by the installs whose stamp they hold, installs that are not over started 30 minutes apart, however long they take |
| `UpdaterInterleaving.OverlappingAcquiresBothDispatch` | packages/backend/src/services/updater.ts:319-331 | Whenever the lock does not hold, two requests at the same moment can both dispatch |
| `UpdaterInterleaving.LateFailureLetsTwoDispatch` | packages/backend/src/services/updater.ts:334-343 | Without overlapping acquires: an install that goes on past its 30 minutes and then fails deletes the lock of the one that took over, and a third dispatches beside that, at any distance |
| `UpdaterInterleaving.InstallIsARun` | packages/backend/src/services/updater.ts:413-576 | Each install that nothing interrupts is one of the interleaved runs |
| `Versions.CompareIsPrecedence` | packages/backend/src/services/updater.ts:234-247 | Written versions, with or without a leading v and a suffix, compare by major, minor and patch alone |
| `Versions.AdmitsExactly` | packages/backend/src/services/updater.ts:224-229 | Stable takes no release that is flagged or whose tag has -rc, -beta or -nightly in any case, the prerelease channel no nightly one, the nightly channel all, and a disabled channel none |
| `Versions.PickReleaseForChannel` | packages/backend/src/services/updater.ts:214-232 | The first release in the list that the channel admits, or none |
| `Sessions.RevocationIsExact` | packages/backend/src/services/auth.ts:179-185 | After any run of logins and password changes the i-th token issued is accepted if and only if no change of the run happened in a later second than that issue |
| `Sessions.RevokedExactly` | packages/backend/src/services/auth.ts:179-185 | The stored time revokes any claims if and only if some password change of the run came in a later second, or there was one and the claims have no issue time |
| `Sessions.AccountRecordsTheRun` | packages/backend/src/routes/auth.ts:108-114 | The changes and issues of an account are those of the run |
| `Sessions.UsersTable.AddUser` | packages/backend/src/bootstrap.ts:259-267 | A new account has no revocation time and no last step |
| `Sessions.UsersTable.CheckLogin` | packages/backend/src/routes/auth.ts:60-76 | A login names the account whose lower-case email was sent and whose stored hash the password fits |
| `Sessions.UsersTable.IssueToken` | packages/backend/src/routes/auth.ts:108-114 | The token carries the second of its issue |
| `Sessions.UsersTable.Authenticate` | packages/backend/src/middleware/auth.ts:75-86 | A request passes if and only if its account exists and none of the password changes written to that row came in a later second than its token |
| `Sessions.OwnTokenSurvives` | packages/backend/src/routes/auth.ts:234-243 | The token a password change hands back is revoked exactly by a later change in a later second, never by its own |
| `Sessions.OldPasswordExactly` | packages/backend/src/routes/auth.ts:60-114 | A token is accepted although the password it was obtained with has been replaced, if and only if the latest change came after the check of that password and no later than the second of the issue |
| `Sessions.LoginOverChange` | packages/backend/src/routes/auth.ts:71-114 | Such a login is possible whenever a change comes between its check and its issue |
| `Sessions.RevokedForever` | packages/backend/src/services/auth.ts:179-185 | A revoked token stays revoked through any further events |
| `Sessions.ClaimedStepsIncrease` | packages/backend/src/services/auth.ts:216-223 | Over every interleaving of login, enable and disable the accepted steps of a user strictly increase, as section 5.2 of RFC 6238 asks |
| `Sessions.CodesAreUsedOnce` | packages/backend/src/routes/totp.ts:90-99 | An accepted attempt that stays within one step has a newer code than every attempt accepted before it |
| `Sessions.ReplayExactly` | packages/backend/src/routes/totp.ts:90-99 | After any run a code that was accepted before is accepted again if and only if the new attempt claims a later step than any accepted so far; it is then verified before and claimed after the end of the code's step, which is all it takes while no later step was claimed |
| `Sessions.NoCodeTwiceExactly` | packages/backend/src/routes/totp.ts:90-99 | Over any run of login, enable and disable no code is accepted twice, if and only if no attempt reuses a code late in this way |
| `Sessions.UsersTable.ChangePassword` | packages/backend/src/services/auth.ts:232-245 | The row gets the new hash, need not change it, and revokes exactly the claims of an earlier second or without an issue time; no other column or row changes, and the change is entered in the history the column is tied to |
| `Sessions.UsersTable.PostPassword` | packages/backend/src/routes/auth.ts:172-243 | Which bodies are refused; that password, flag and revocation time are written before an email conflict is noticed; that email, in lower case, and name are written only on the first login; and that the token handed back is not revoked |
| `Sessions.UsersTable.ClaimTotpStep` | packages/backend/src/services/auth.ts:216-223 | The conditional update: won exactly by a step above the last one, or by any if there is none |
| `Sessions.UsersTable.LoginSecondFactor` | packages/backend/src/routes/auth.ts:78-106 | Which of the six answers a login gets, each by an if-and-only-if over what was sent and stored; passing takes the code of the current 30 seconds and a step above the last one, which it claims |
| `Sessions.UsersTable.EnableTotp` | packages/backend/src/routes/totp.ts:78-110 | Succeeds exactly for the code of the current 30 seconds in a step not yet claimed; burns the step and stores the secret, or changes nothing |
| `Sessions.UsersTable.DisableTotp` | packages/backend/src/routes/totp.ts:129-167 | Succeeds exactly with password, secret and such a code; forgets the secret and keeps the last step, or changes nothing |
| `DnsVerify.VerifyDns` | packages/backend/src/services/dns-verify.ts:108-211 | The outcome is the verdict on the first decisive response, or on the last response if none is; it is reached with that many queries and one pause fewer, and the final fall-through only for a budget of 0 or less |
| `DnsVerify.VerifiedExactly` | packages/backend/src/services/dns-verify.ts:158-207 | A response is judged verified if and only if a visible CNAME, or else the first CNAME record in the zone, ends with the target, or nobody can say what is behind the addresses |
| `DnsVerify.DecisiveExactly` | packages/backend/src/services/dns-verify.ts:127-157 | A response settles the matter if and only if it denies the name or holds a CNAME, A or AAAA answer |
| `DnsVerify.KindsExactly` | packages/backend/src/services/dns-verify.ts:139-157 | Which answers and records count as CNAME or address, and that the denial is the verdict exactly for response code 3 |
| `DnsVerify.ChainExactly` | packages/backend/src/services/dns-verify.ts:158-173 | Among visible CNAMEs the first that ends with the target is reported with its TTL, and if none does the first of all is to blame |
| `DnsVerify.ProxiedExactly` | packages/backend/src/services/dns-verify.ts:175-207 | Behind edge addresses: the first address if nobody can say more; else the first CNAME record of the zone, right or wrong; else its first record; else nothing |
| `DnsVerify.CleanExactly` | packages/backend/src/services/dns-verify.ts:94-98 | Names are compared in lower case and without one dot at the end |
| `DnsVerify.VerifiedNameMatches` | packages/backend/src/services/dns-verify.ts:158-207 | The name reported as verified ends with the target whenever it could be checked |
| `NginxConfig.TransactionalExactly` | packages/backend/src/services/nginx-config.ts:235-280 | Every uninterrupted write and removal does to the configured files exactly what its reply promises, if and only if, should the test have failed, the rollback worked, or its write failed over equal texts or leaving just the old one |
| `NginxConfig.WriteRepliesExactly` | packages/backend/src/services/nginx-config.ts:235-267 | Which reply a write gets and what nginx reads afterwards, for every way in which writing, testing, restoring, deleting and reloading can go |
| `NginxConfig.RemoveRepliesExactly` | packages/backend/src/services/nginx-config.ts:272-280 | A removal deletes the file that is there, or reports that it could not |
| `NginxConfig.CharsAreHarmless` | packages/backend/src/services/nginx-config.ts:172-201 | No character that any sanitiser lets through ends a directive, opens a block, quotes or is white space, and letters, digits and . _ : - all pass |
| `NginxConfig.RunsStayValid` | packages/backend/src/services/nginx-config.ts:235-280 | If validity survives removing a file and rollbacks work, the directory passes nginx -t after every call of any run of uninterrupted calls |
| `NginxConfig.FilesAreLastChanges` | packages/backend/src/services/nginx-config.ts:235-280 | After any run of uninterrupted calls each host's file is the last change reported as made: failed calls leave no trace |
| `NginxInterleaving.ExcusedExactly` | packages/backend/src/services/nginx-config.ts:235-280 | However calls overlap between snapshot, rename, test and rollback, a file is bad only while a write of it is unsettled, if and only if no write that is the last unsettled one of its host ends and leaves a bad file |
| `NginxInterleaving.SettledIsValid` | packages/backend/src/services/nginx-config.ts:250-258 | With no write unsettled that means that the whole directory is valid |
| `NginxInterleaving.OrderlyRunsStayValid` | packages/backend/src/services/nginx-config.ts:239-258 | It holds if no host's file is read for rollback while another write of that host is unsettled and rollbacks work; writes of different hosts may overlap at will |
| `NginxInterleaving.FilesAreLastReportsExactly` | packages/backend/src/services/nginx-config.ts:235-280 | However calls overlap, each host's file is the last reported change to it whenever no write of it is unsettled, if and only if no last unsettled write of a host ends with another text in place than was last reported |
| `NginxInterleaving.OneAtATimeFilesAreReports` | packages/backend/src/services/nginx-config.ts:235-280 | It is so if calls for one host do not overlap and rollbacks work |
| `NginxInterleaving.DeployedTextIsUndone` | packages/backend/src/services/nginx-config.ts:239-258 | From every valid directory a text that was tested and reported as deployed can be undone by an overlapping write of the same host that fails, with snapshots taken while nothing is unsettled and rollbacks that work |
| `NginxInterleaving.SameHostOverlapBreaks` | packages/backend/src/services/nginx-config.ts:239-258 | From every state two overlapping writes of one host with texts that fail leave the first of them in place |
| `NginxInterleaving.CallIsARun` | packages/backend/src/services/nginx-config.ts:235-280 | Each call that nothing interrupts is one of the interleaved runs |
| `NginxConfig.HostsDirectory.Rollback` | packages/backend/src/services/nginx-config.ts:253-257 | The previous text is written back, or the new file deleted |
| `NginxConfig.HostsDirectory.WriteHostConfig` | packages/backend/src/services/nginx-config.ts:235-267 | Snapshot, temporary file, rename, test, rollback or reload; no temporary file survives the rename |
| `NginxConfig.HostsDirectory.RemoveHostConfig` | packages/backend/src/services/nginx-config.ts:272-280 | An absent file is fine; a failed reload is not reported |
| `NginxConfig.HeaderValueIsSafe` | packages/backend/src/services/nginx-config.ts:172-174 | The result is short and has only allowed characters; exactly such values pass unchanged |
| `NginxConfig.ForwardHostIsSafe` | packages/backend/src/services/nginx-config.ts:182-190 | The result is a name without a colon or one bracketed literal with colons; exactly such values pass unchanged |
| `NginxConfig.PathPrefixIsSafe` | packages/backend/src/services/nginx-config.ts:198-201 | The result starts with a slash and cannot end the directive; exactly such values pass unchanged |
| `Archive.HandleBackup` | packages/backend/src/routes/backup.ts:67-132 | The bytes written are one archive of the whole tar stream however it is cut into chunks; with nothing to back up only the header goes out |
| `Archive.Cipher.Update` | packages/backend/src/routes/backup.ts:113-116 | Encrypting piece by piece continues the encryption of the whole |
| `Archive.MaskAppend` | packages/backend/src/routes/backup.ts:113-116 | Encryption of a concatenation is the concatenation of the encryptions at their positions |
| `Archive.OpensExactly` | packages/backend/src/services/crypto.ts:43-66 | A box opens to a text if and only if it is that text sealed |
| `Archive.HeaderExactly` | packages/backend/src/services/restore.ts:65-89 | The frame is uniquely readable |
| `Archive.RestoresExactlyBackups` | packages/backend/src/services/restore.ts:60-105 | A file restores to an archive if and only if writing is allowed and the file is a backup of that archive under the passphrase |
| `Archive.RefusalsExactly` | packages/backend/src/services/restore.ts:65-105 | Which refusal a file gets, in the order of the tests; failing to decrypt comes last and means that it is no backup under the passphrase |
| `Archive.LayoutExactly` | packages/backend/src/routes/backup.ts:67-77 | Where magic, version, salt, nonce, each encrypted byte and the tag are in a backup |
| `Archive.RestoreUndoesBackup` | packages/backend/src/services/restore.ts:83-105 | Restoring gives back the concatenated pieces of any backup, of no pieces too |
| `Archive.EmptyBackupIsTooShort` | packages/backend/src/routes/backup.ts:77-89 | What goes out when there is nothing to back up is refused as too short |
| `Archive.DataDir.RestoreFromBuffer` | packages/backend/src/services/restore.ts:60-132 | Every refusal leaves the data directory as it was; otherwise the archive is unpacked over it |
| `Archive.DataDir.RestoreAndMark` | packages/backend/src/services/restore.ts:138-152 | The marker is written after a complete restore only |
| `Archive.DecryptsExactly` | packages/backend/src/services/crypto.ts:43-66 | A stored secret decrypts to a text if and only if it is an encryption of it under some nonce |
| `Archive.Settings.VerifyKeyOrSeed` | packages/backend/src/services/crypto.ts:87-118 | Seeds once; afterwards the answer says whether the stored value is the check text under the current key, and nothing is written |
| `ApiKeys.SamplingIsUniform` | packages/backend/src/services/api-keys.ts:45-58 | For every alphabet size N in 1..256 each symbol comes from exactly 256 / N accepted bytes |
| `ApiKeys.PlainModuloIsBiased` | packages/backend/src/services/api-keys.ts:46-49 | Plain modulo favours the first 256 mod N symbols, so it is uniform only for divisors of 256 |
| `ApiKeys.FourBytesEach` | packages/backend/src/services/api-keys.ts:43-57 | Each character of the 57-character alphabet comes from exactly four accepted bytes |
| `ApiKeys.TakeBatch` | packages/backend/src/services/api-keys.ts:55-59 | One batch adds its accepted symbols, cut at the wanted length |
| `ApiKeys.RandomString` | packages/backend/src/services/api-keys.ts:51-62 | The result is the first symbols of the accepted bytes of the stream, from no more batches than it takes |
| `ApiKeys.YieldGrows` | packages/backend/src/services/api-keys.ts:54-60 | More batches never change the symbols already drawn |
| `ApiKeys.SymbolsHaveNoSeparator` | packages/backend/src/services/api-keys.ts:43-57 | A random string has no underscore in it |
| `ApiKeys.GenerateKey` | packages/backend/src/services/api-keys.ts:69-75 | A prefix of 8 and a secret of 32 symbols, without underscores, and a key by which the prefix is found |
| `ApiKeys.PrefixIsRecovered` | packages/backend/src/services/api-keys.ts:133-137 | The prefix looked up is that of a part p if and only if the key is cgk_p_ and anything |
| `ApiKeys.LiveKeysExactly` | packages/backend/src/services/api-keys.ts:77-158 | After any run of creations, rotations and revocations a key opens a row if and only if it is the last key handed out for that row, the row is still there and it has not expired |
| `ApiKeys.ApplyKeepsInv` | packages/backend/src/services/api-keys.ts:77-125 | Prefixes stay unique, and each row matches the last key handed out for it |
| `ApiKeys.KeyTable.VerifyApiKey` | packages/backend/src/services/api-keys.ts:132-158 | Finds the row that matches by prefix, hash and expiry, or says that none does |
| `ApiKeys.KeyTable.CreateApiKey` | packages/backend/src/services/api-keys.ts:77-98 | One new row under a fresh id with the user, the prefix, the hash of the whole key and the expiry, unless the prefix is taken |
| `ApiKeys.KeyTable.RevokeApiKey` | packages/backend/src/services/api-keys.ts:105-109 | Deletes only the user's own row |
| `ApiKeys.KeyTable.RotateApiKey` | packages/backend/src/services/api-keys.ts:111-125 | Succeeds exactly for the user's own row and a free prefix; replaces prefix and hash and keeps user and expiry |

## Left out

What the model does not capture of the components above:

- Supervisor.ManagedProcess.Deliver: that a failed spawn reports no exit is a choice of the environment, which need not let any process exit. A spawn that throws in the respawn timer ends the Node process in the source; the model lets runs go on. Timers may fire later than they are due, and the 5 s of the kill and grace timers and the 10 s of the health interval are not modelled. Status callbacks and log callbacks are left out, and so are the overrides of cloudflared and playit.
- SupervisorTheorems.RespawnRateIsBounded: assumes that the wall clock does not run backwards, and that timers are measured by it.
- LoginThrottle.FailuresPerWindow: the keys are host and address, so a client whose address is the literal `*` is not identified with the per-host key; a restart empties the map.
- DnsOwnership.RequestKeepsOwned: a request and the background deploy that it starts are one event; DnsInterleaving splits them. The forwarding fields, the payload of a record beyond its edge, errors written to the row, and the providers' own work are left out, and a prune is one zone at a time.
- DnsInterleaving.EveryRecordIsKept: reading the row and loading the zone's token are one step, and the checks on an edit are not repeated: any edit of a row that keeps or resets the record id is allowed. A create call that takes effect but reports an error is a create followed by giving the deploy up.
- SetupMutex.SetupService.CreateInitialAdmin: the password stands for its hash, timestamps are left out, and ids count from the rows in the table.
- Csv.ColumnOrderIsFree: lower-casing is that of ASCII letters; the same holds for host names in VerifyDns and for emails.
- ZoneSync.ZoneStore.SyncZonesForAccount: the transaction is atomic, and the insert of a list that names one zone twice merges in order.
- Updater.UpdateService.TriggerInstall: installs do not overlap in this module; UpdaterInterleaving splits them. Errors while writing the lock file, the `state` field, and what the applier does with the lock are left out; gpg is one answer.
- UpdaterInterleaving.LockWorksExactly: the stamp that another process reads is empty or whole, never part of one; an exception between starting the applier and the end of the try block is left out, and a restart ends jobs one by one.
- Versions.CompareIsPrecedence: numbers beyond the precision of a JavaScript number are not modelled.
- Sessions.RevocationIsExact: a change checks the current password, takes its time stamp and writes the row in one event; expiry and signatures of tokens, and the round trip of the time stamp through its ISO text, are left out.
- Sessions.CodesAreUsedOnce: a code is identified by the secret and the step it was made from; that two steps may share six digits is left out.
- Sessions.UsersTable.Authenticate: accounts are not deleted, and the clock does not run backwards; API keys are in ApiKeys.
- Sessions.UsersTable.PostPassword: the row stays in the table during the request, and a form without the required fields is refused before.
- DnsVerify.VerifyDns: latency, timeouts of single queries and message texts are left out; the record lookup is asked at most once, so its answer is one argument.
- NginxConfig.HostsDirectory.WriteHostConfig: calls do not overlap in this module; NginxInterleaving splits them. Rendering is an argument, so the template and its default values are left out; encodings and file modes too.
- NginxInterleaving.ExcusedExactly: a file is good or bad for itself, as the self-contained template and its per-host names ask for, and one `nginx -t` sees all files at one moment. Temporary files and reloads are left out.
- Archive.HandleBackup: an error of the tar stream after the header is left out, as are the list of candidate paths and the filter.
- Archive.RestoresExactlyBackups: the cipher is a key stream and an authenticator, arbitrary functions of key, nonce, position and cipher text; that tags cannot be forged is not expressible here. base64url and UTF-8 are left out of DecryptsExactly.
- ApiKeys.LiveKeysExactly: requires that the hash tells the presented key from the row's own; the last-used fields are left out.
- ApiKeys.RandomString: the random source is a finite sequence of batches, and the answer is none if they do not suffice; that the source is random is left out.

What is not modelled at all:

- HTTP routing, server-sent events, the WebSocket upgrade and the proxy in the gateway
- The providers' ingress files, daemons and REST calls, and the config writer
- Zod schemas, projections of rows for responses, audit records and settings
- The LLM multiplexer, chat, the OpenAPI document, diagnostics, health reports and the recovery UI
- React components other than the two functions of the bulk import
- argon2, JWT signing, otplib, tar, Liquid and SQLite themselves
- The ACME order, renewal and the DNS challenge behind the cooldown
- Update checks beyond comparing and picking (`triggerCheck` is a request and a few assignments)

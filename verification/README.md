# Verified models of stateful n8n components

Dafny models of the parts of n8n in which several things happen at once or a
table is changed while it is read: the life cycle and the resume protocol of
executions, the concurrency queue, the timers of waiting executions, execution
deadlines, credential overwrites and inheritance, the replacement of invalid
credentials, the connection pool cache, paired-item backtracking, the activation
retry queue and key-path collection. `dafny verify dfyconfig.toml` checks
everything.

A class or a method with a loop stands where the source updates fields or loops;
its contract equates the new state with a specification function, and the laws
are lemmas about these functions. Concurrent code is a transition system whose
steps are the stretches between two awaits; objects that several closures share
(records, reservations, controllers, timers) live in append-only sequences and
are named by their index.

| file | source component |
|---|---|
| `ExecutionRegistry.dfy`, `RegistryLaws.dfy`, `FinallyLaws.dfy`, `AnswerLaws.dfy`, `ActiveExecutions.dfy` | the in-process registry of active executions |
| `ConcurrencyQueue.dfy`, `ConcurrencyControl.dfy` | the queue behind its capacity reservations, and the service that has one per limited mode |
| `ResumeProtocol.dfy`, `ResumeLaws.dfy`, `ResumeProgress.dfy` | resume attempts of many processes on one database |
| `LimitedProtocol.dfy`, `LimitedProgress.dfy` | the same with a concurrency queue in every process |
| `ResumeData.dfy`, `StaleData.dfy`, `StaleRuns.dfy` | the data such attempts run with |
| `WaitTracker.dfy`, `WaitTrackerLaws.dfy` | the timers that start such attempts |
| `Deadlines.dfy` | execution timeouts, nested and across waits |
| `CredentialTypes.dfy`, `CredentialsOverwrites.dfy` | credential inheritance and overwrites |
| `InvalidCredentials.dfy`, `ReplacementLaws.dfy` | `replaceInvalidCredentials` |
| `ConnectionPool.dfy`, `ConnectionPoolLaws.dfy` | `ConnectionPoolManager` |
| `Backtracking.dfy` | paired-item backtracking |
| `ActivationQueue.dfy` | the activation retry queue |
| `KeyPaths.dfy`, `KeyPathLaws.dfy` | `getAllKeyPaths` |

## Where the code does less than it says

Each of these comes with an equivalence that says exactly when it happens, and
most also with a concrete run.

- Capacity is lost for good when an execution already marked waiting is stopped
  or resumed before it is finalized (`LeaksExactlyWhen`). When all of a process's
  limit is lost so, nothing is let in there any more (`LeaksBlockTheProcess`).
- A `finally` callback that runs late deletes the entry of the record that has
  replaced its own (`DisplacedEvicts`; exactly when: `KeepsDueCurrentExactlyWhen`).
- The conditional update of a resume checks the status alone. One epoch is never
  resumed twice, but an attempt held up since an earlier epoch wins a later one
  with the earlier data (`StaleDataCanWin`; exactly when:
  `WinIsCurrentExactlyWhen`), and a child's late update overwrites a later
  epoch's stack (`LateChildUpdateOverwrites`; exactly when:
  `AlwaysCurrentExactlyWhen`).
- The hard timeout is meant to be counted from the start of the execution, so that
  waiting does not extend it. Resumes by timers and children do that
  (`WaitingExtendsNothing`). Resumes by webhook, form or chat message pass no
  start and get the full limit again (`WebhookResumesExtend`,
  `CountsFromTheStartExactlyWhen`).
- The soft timeout, and with it the sub-workflows' deadline, is counted from the
  last resume in any case (`SoftWithinHardExactlyWhen`).
- `ConcurrencyQueue.remove`, called when a queued execution is stopped
  (packages/cli/src/executions/execution.service.ts:559-560), starts the next
  waiting execution although none has finished: the limit is exceeded if and only
  if others were waiting (`ExceedsTheLimitExactlyWhen`; in the running system:
  `LimitedProtocol.ExceedsExactlyWhen`). `removeAll` would do so
  too (`RemoveAllExceedsExactlyWhen`), but the service is disabled when its only
  caller reaches it (`Shutdown`), so it neither removes nor cancels anything.
- After `stopTracking` the entries stay without timers, and no later poll of the
  same process arms one again (`StepDownStrandsExactly`, `StaysStrandedExactlyWhen`).
- `getOverwrites` answers differently once its memo is filled, exactly when:
  `FullMergeExactlyWhen`. `get` makes up for it if and only if no type has several
  parents (`InvisibleExactlyWhen`): with several, the last parent wins in the one
  merge and the first in the other (`TwoParentsDisagree`).
- A cached missing credential id ignores the name of later nodes
  (`CachesAgreeExactlyWhen`).
- Two overlapping misses lose a pool that only its own abort signal still closes
  (`LosesAPoolExactlyWhen`, `LeakedForGood`).
- Backtracking promises undefined when a link is missing, but goes on from the
  requested item index in the next task (`BrokenLinkIsMasked`,
  `UndefinedWhenBrokenExactlyWhen`); the comment in its loop says the item index
  falls back to 0, the code falls back to the requested one.
- With several mains, the retry of a queued activation hands over to the leader and
  leaves its workflow in the queue without a timer (`KeepsOneTimerEachExactlyWhen`,
  `StuckUntilTouched`).

## Assumptions

- The conditional update of a row is atomic
  (packages/cli/src/workflow-helpers.ts:269-270), reads return the last write, and
  a child updates its parent with the output of its own run.
- Code between two awaits runs without interruption; a settled promise runs its
  `finally` callback once, later.
- Clocks do not run backwards and interval timers fire when due
  (`ConnectionPoolLaws` only; deadlines assume nothing).
- Whether there are several mains does not change while workflows are queued for
  activation.
- Executions that wait belong to saved workflows.
- The `extends` of a loaded credential type is that of the known type; database
  ids are unique; keys of an object are unique.

## Model

| member | source | states |
|---|---|---|
| ActiveExecutions.ActiveExecutions.constructor | packages/cli/src/active-executions.ts:41-47 | a new registry is empty and satisfies the invariant that every run keeps |
| ActiveExecutions.ActiveExecutions.Add | packages/cli/src/active-executions.ts:56-154 | a call that fails at any await leaves map, records and net capacity as they were; one that succeeds adds one record that takes over start time and response promise of a resumed one and holds one reservation |
| ActiveExecutions.ActiveExecutions.OpenReservation | packages/cli/src/active-executions.ts:62-62 | a reservation of its own, not acquired and owned by no record |
| ActiveExecutions.ActiveExecutions.Reserve | packages/cli/src/concurrency/concurrency-capacity-reservation.ts:23-28 | the reservation holds capacity, still owned by no record, the invariant is kept |
| ActiveExecutions.ActiveExecutions.ReleaseReservation | packages/cli/src/concurrency/concurrency-capacity-reservation.ts:30-36 | gives capacity back if it is held and is a no-op otherwise |
| ActiveExecutions.ActiveExecutions.AbandonAdd | packages/cli/src/active-executions.ts:114-117 | the catch branch gives back what was held, the invariant is kept |
| ActiveExecutions.ActiveExecutions.RegisterExecution | packages/cli/src/active-executions.ts:119-132 | the new record replaces a resumed one in the map and carries over its start time and response promise |
| ActiveExecutions.ActiveExecutions.RunFinally | packages/cli/src/active-executions.ts:140-149 | gives back the capacity of its own record; removes the map entry of that id unless the record is waiting |
| ActiveExecutions.ActiveExecutions.AttachResponsePromise | packages/cli/src/active-executions.ts:164-169 | sets the response promise of the current record, or reports that there is none |
| ActiveExecutions.ActiveExecutions.SetStatus | packages/cli/src/active-executions.ts:282-284 | sets the status of the current record, or reports that there is none |
| ActiveExecutions.ActiveExecutions.StopExecution | packages/cli/src/active-executions.ts:186-212 | rejects the response promise; drops a waiting entry unsettled, settles any other |
| ActiveExecutions.ActiveExecutions.FinalizeExecution | packages/cli/src/active-executions.ts:215-234 | settles the current record, does nothing for an unknown id |
| ActiveExecutions.ActiveExecutions.ResolveExecutionResponsePromise | packages/cli/src/active-executions.ts:237-250 | answers the response promise of the current record unless it is waiting |
| ActiveExecutions.ActiveExecutions.ResolveResponsePromise | packages/cli/src/active-executions.ts:171-174 | answers the response promise of the current record, whatever its status |
| ActiveExecutions.ActiveExecutions.Shutdown | packages/cli/src/active-executions.ts:291-310 | never reads a missing entry, in whatever order the keys come; every entry present at the call is dropped, cancelled or left alone according to mode and status |
| ActiveExecutions.ActiveExecutions.ShutdownOne | packages/cli/src/active-executions.ts:301-309 | one turn touches the entry and the record of its own id only |
| ActiveExecutions.ShutdownCancels | packages/cli/src/active-executions.ts:299-310 | a cancelling shutdown leaves only settled, non-waiting entries whose callback is still to run |
| ActiveExecutions.ShutdownLeavesRunning | packages/cli/src/active-executions.ts:306-309 | a shutdown that does not cancel leaves only entries that do not wait, each with its callback still to run |
| ExecutionRegistry.StepKeepsInv | packages/cli/src/active-executions.ts:62-149 | every event keeps: each record owns its own reservation, held until its finally and given back by it; both counters match |
| ExecutionRegistry.RunKeepsInv | packages/cli/src/active-executions.ts:62-149 | the same over every run |
| RegistryLaws.CapacityIsConserved | packages/cli/src/active-executions.ts:62-149 | over every run, acquired minus released is the number of held reservations; a record has released exactly when its finally has run; no two records share one |
| RegistryLaws.ReleasedOnce | packages/cli/src/active-executions.ts:114-149 | a released reservation stays released whatever happens, so it is released at most once |
| RegistryLaws.InProgressStep | packages/cli/src/active-executions.ts:62-149 | capacity not owned by a pending record changes only by the three steps of `add`: its finally returns exactly what a record held |
| RegistryLaws.OrphanedExactlyWhen | packages/cli/src/active-executions.ts:119-149 | a step makes a record unreachable while its promise is pending if and only if it is one of four named cases |
| RegistryLaws.OrphanForever | packages/cli/src/active-executions.ts:119-149 | capacity held by such a record is never given back, over every later run |
| RegistryLaws.LeaksExactlyWhen | packages/cli/src/active-executions.ts:119-212 | a run leaks capacity if and only if one of its steps is one of the four cases |
| RegistryLaws.WaitingRunReaches | packages/cli/src/active-executions.ts:120-132 | concrete run: an execution is put to wait before it is finalized |
| RegistryLaws.StopBeforeFinalizationLeaks | packages/cli/src/active-executions.ts:203-206 | from every such state a stop leaks: the record is out of reach, its capacity held, and the finalization finds nothing |
| RegistryLaws.ResumeBeforeFinalizationLeaks | packages/cli/src/active-executions.ts:215-233 | from every such state a resume leaks: the finalization of the old run settles the new record, which vanishes from the map while it runs, and the old capacity stays taken |
| RegistryLaws.StartSurvivesResumes | packages/cli/src/active-executions.ts:121-126 | as long as an id stays in the map, its start time is that of the first `add` |
| RegistryLaws.SettledIsFinal | packages/cli/src/active-executions.ts:186-250 | once a record has settled non-waiting, stop, finalize and resolve for that id change nothing but its already answered response |
| AnswerLaws.AnsweredExactlyWhen | packages/cli/src/active-executions.ts:171-250 | a response promise becomes answered by a step if and only if it is that of the current record and the step is a stop, a resolve by a node, or the resolve at the end of a run that does not wait |
| AnswerLaws.AnsweredOverRunsExactlyWhen | packages/cli/src/active-executions.ts:171-250 | the same over every run: exactly when one of its steps is such |
| AnswerLaws.AttachedIsAnswered | packages/cli/src/active-executions.ts:164-250 | a promise once attached is answered by the next stop or resolve, however often the execution has waited and been resumed in between |
| AnswerLaws.RecordsChangeExactlyWhen | packages/cli/src/active-executions.ts:119-284 | a record is settled exactly by its finalization, waiting or not, and by the stop of one that does not wait; status and response change exactly by the setter for the current record, its callback runs once, and nothing else of it ever changes |
| AnswerLaws.SettledOverRunsExactlyWhen | packages/cli/src/active-executions.ts:186-234 | over every run a record is settled exactly when one of the steps settled it |
| AnswerLaws.EntriesChangeExactlyWhen | packages/cli/src/active-executions.ts:119-212 | an id enters the map by a registration and leaves it by the stop of a waiting execution, a drop or the callback of one of its records that does not wait, and in no other way |
| FinallyLaws.KeepsDueCurrentExactlyWhen | packages/cli/src/active-executions.ts:119-149 | "records with a due callback are in the map" survives a step if and only if it neither registers over such a record nor drops one |
| FinallyLaws.LateFinallyNeverEvicts | packages/cli/src/active-executions.ts:119-149 | over every run without these two steps, with stops, drops and statuses at any moment, a callback deletes the entry of its own record or none |
| FinallyLaws.DisplacedEvicts | packages/cli/src/active-executions.ts:121-148 | after such a registration the callback of the replaced record deletes the entry of its replacement |
| FinallyLaws.KeepsFinallyPendingExactlyWhen | packages/cli/src/active-executions.ts:282-284 | entries whose callback has run wait, until and unless such a run reports another status |
| FinallyLaws.CarefulRunKeepsTidy | packages/cli/src/active-executions.ts:119-149 | runs that replace or remove a record only after its finalization and report no status after the end lose no capacity, and what the callbacks find is their own |
| FinallyLaws.StaysCancelledExactlyWhen | packages/cli/src/active-executions.ts:312-323 | after a cancelling shutdown "every entry only waits for its callback" survives a step if and only if it is neither a new execution nor a new wait |
| FinallyLaws.ShutdownDrains | packages/cli/src/active-executions.ts:312-323 | over every run without these, whatever else is called, the map is empty once the due callbacks have run |
| FinallyLaws.EntriesLeaveWithTheirFinally | packages/cli/src/active-executions.ts:312-323 | without cancelling, an entry leaves exactly with the callback of its record: the polling loop ends when the last of them has run, not before |
| ConcurrencyQueue.ConcurrencyQueue.constructor | packages/cli/src/concurrency/concurrency-queue.ts:13-20 | starts with the limit as capacity and nobody waiting |
| ConcurrencyQueue.ConcurrencyQueue.Enqueue | packages/cli/src/concurrency/concurrency-queue.ts:22-33 | takes one capacity; lets the execution in, or queues it when capacity has become negative |
| ConcurrencyQueue.ConcurrencyQueue.Dequeue | packages/cli/src/concurrency/concurrency-queue.ts:39-43 | gives one capacity back and lets the next one in |
| ConcurrencyQueue.ConcurrencyQueue.Remove | packages/cli/src/concurrency/concurrency-queue.ts:45-55 | takes the first item with the id out of the queue, gives its capacity back and lets the next one in; no effect for an unknown id |
| ConcurrencyQueue.ConcurrencyQueue.ResolveNext | packages/cli/src/concurrency/concurrency-queue.ts:65-75 | moves the first waiting execution to the admitted ones |
| ConcurrencyQueue.ConcurrencyQueue.RemoveEach | packages/cli/src/concurrency/concurrency-control.service.ts:153-159 | removes every queued id once, in queue order |
| ConcurrencyControl.ConcurrencyControlService.Create | packages/cli/src/concurrency/concurrency-control.service.ts:46-80 | throws for a limit of 0; disabled in queue mode or without any limit; otherwise an empty queue for each of the two types that has one |
| ConcurrencyControl.TypeOf | packages/cli/src/concurrency/concurrency-control.service.ts:202-221 | webhook, trigger and chat executions are limited by the production queue, evaluations by theirs, the other modes by none |
| ConcurrencyControl.ConcurrencyControlService.Throttle | packages/cli/src/concurrency/concurrency-control.service.ts:121-125 | enqueues in the queue of the mode while enabled; lets unlimited modes and, once disabled, everything through |
| ConcurrencyControl.ConcurrencyControlService.Release | packages/cli/src/concurrency/concurrency-control.service.ts:130-134 | dequeues from the queue of the mode while enabled, does nothing otherwise |
| ConcurrencyControl.ConcurrencyControlService.Remove | packages/cli/src/concurrency/concurrency-control.service.ts:139-143 | removes from the queue of the mode while enabled, does nothing otherwise |
| ConcurrencyControl.ConcurrencyControlService.RemoveAll | packages/cli/src/concurrency/concurrency-control.service.ts:150-163 | while enabled removes every queued id of every queue once and cancels the given ids, does nothing otherwise |
| ConcurrencyControl.ConcurrencyControlService.Disable | packages/cli/src/concurrency/concurrency-control.service.ts:170-172 | from then on it lets everything through |
| ConcurrencyControl.ConcurrencyControlService.Shutdown | packages/cli/src/active-executions.ts:293-312 | in either mode, shutdown leaves every queue as it is and cancels nothing, whatever it has collected: the service is disabled before `removeAll` |
| ConcurrencyQueue.StepKeepsCounted | packages/cli/src/concurrency/concurrency-queue.ts:22-55 | capacity is limit minus running minus waiting, and nobody waits while there is room |
| ConcurrencyQueue.ExceedsTheLimitExactlyWhen | packages/cli/src/concurrency/concurrency-queue.ts:45-55 | a step exceeds the limit if and only if it removes one of several waiting executions |
| ConcurrencyQueue.RunsStayWithinTheLimit | packages/cli/src/concurrency/concurrency-queue.ts:22-55 | over every run without such a removal the limit is never exceeded |
| ConcurrencyQueue.FirstComeFirstServed | packages/cli/src/concurrency/concurrency-queue.ts:22-43 | without removals, executions are let in in the order of arrival, none lost and none twice |
| ConcurrencyQueue.RemovedExactly | packages/cli/src/concurrency/concurrency-queue.ts:45-55 | a removal takes out the first waiting attempt with the id, keeps all others in order of arrival and lets one of them in |
| ConcurrencyQueue.RemovedWhere | packages/cli/src/concurrency/concurrency-queue.ts:45-48 | an id that does not wait changes nothing |
| ConcurrencyQueue.RemoveAllExceedsExactlyWhen | packages/cli/src/concurrency/concurrency-control.service.ts:153-159 | removing every waiting id once stays within the limit if and only if fewer than two were waiting, and leaves all but two for each id |
| ResumeProtocol.StepKeepsValid | packages/cli/src/active-executions.ts:90-132 | every step of every process keeps: attempts hold the reservation their stage says, no two the same one |
| ResumeProtocol.InitialIsValid | packages/cli/src/active-executions.ts:40-47 | any database with idle processes is a valid start |
| ResumeLaws.ResumedAtMostOnce | packages/cli/src/active-executions.ts:90-112 | over every interleaving of processes, timers, children and row writes, each waiting epoch is resumed by at most one `add` |
| ResumeLaws.LosersLeaveNoTrace | packages/cli/src/active-executions.ts:90-117 | no step of an attempt that loses or fails, from its load on, changes the database, a map or a record of any process, and capacity changes by what the attempt takes or gives back |
| ResumeLaws.LosersAreDone | packages/cli/src/active-executions.ts:114-117 | a lost or failed attempt holds no capacity and never moves again |
| ResumeLaws.CapacityConserved | packages/cli/src/active-executions.ts:62-149 | in every process, capacity taken is the number of `add` calls past their reserve whose failure path or finally has not run |
| ResumeLaws.EveryReachableState | packages/cli/src/active-executions.ts:56-154 | the above from a cold start with any number of processes |
| ResumeProgress.FailsExactlyWhen | packages/cli/src/wait-tracker.ts:101-170 | an attempt fails exactly by its own load that finds no row or a finished one, or by a failure inside its add |
| ResumeProgress.StatusChangesExactlyWhen | packages/cli/src/active-executions.ts:81-112 | apart from whole-row writes, an execution is set running exactly by the commit of a fresh attempt or of one that finds it waiting, and no other status changes |
| ResumeProgress.StackChangesExactlyWhen | packages/cli/src/workflow-helpers.ts:277-309 | its stack changes exactly by the write of a child, to what that child holds, and by a resume, to what the attempt has loaded |
| ResumeProgress.RowsAppearExactlyWhen | packages/cli/src/active-executions.ts:65-82 | rows appear for fresh executions only, with status new |
| ResumeProgress.PreparesExactlyWhen | packages/cli/src/workflow-helpers.ts:277-303 | a child prepares an update exactly when it has an output and finds its parent waiting with a stack: the same stack with the output as the data of its first item |
| ResumeProgress.LoadingWins | packages/cli/src/wait-tracker.ts:101-145 | from any state of the system, an attempt that is about to load a waiting, unfinished row wins its epoch by its own steps, with the stack of the row |
| ResumeProgress.ChildResumesItsParent | packages/cli/src/wait-tracker.ts:147-170 | from any state of the system, a finished child with or without output whose parent still waits resumes it by its own steps: with its output at the stack head, or with the stack as it was if there is no output or no head |
| LimitedProtocol.TurnKeepsLimited | packages/cli/src/active-executions.ts:62-149 | over the steps of all processes: what a queue has let in is what has reserved or is about to, what it counts as finished is what has released |
| LimitedProtocol.ExceedsExactlyWhen | packages/cli/src/concurrency/concurrency-queue.ts:22-55 | a step of the whole system exceeds the limit of a process if and only if it removes one of several queued executions |
| LimitedProtocol.HeldNeverExceedsTheLimit | packages/cli/src/concurrency/concurrency-capacity-reservation.ts:23-36 | from a cold start, over every interleaving without such a removal, the reservations held in a process never exceed its limit, and nobody waits in its queue while they are fewer |
| LimitedProgress.BeginsExactly | packages/cli/src/concurrency/concurrency-capacity-reservation.ts:23-28 | a call that begins while its process is below the limit may go on at once, any other queues behind everyone else |
| LimitedProgress.ReleaseLetsTheNextIn | packages/cli/src/concurrency/concurrency-capacity-reservation.ts:30-36 | every step that gives capacity back lets the first one in the queue of its process in |
| LimitedProtocol.StopTakesFromTheLimit | packages/cli/src/active-executions.ts:203-206 | each stop of a waiting execution before its finalization adds one reservation that is never given back |
| LimitedProtocol.LeaksBlockTheProcess | packages/cli/src/active-executions.ts:140-148 | once such reservations make up the limit of a process, over every later run without such a removal no call is let in there and no throttled one goes on |
| ResumeData.ParentRunsWithAChildsOutput | packages/cli/src/workflow-helpers.ts:277-309 | from a cold start, while no child of the parent is late: a child that stored its update, loaded and won within one epoch runs the parent with some finished child's output at the stack head, the rest of the stack unchanged |
| ResumeData.PromptRunKeepsData | packages/cli/src/workflow-helpers.ts:288-308 | while no child of an execution stores an update prepared in an earlier epoch, its row, attempts and wins carry their own epoch's stack, whatever other executions do |
| ResumeData.ChildUpdatesKeepStatus | packages/cli/src/workflow-helpers.ts:293-308 | no child update changes the status of any execution |
| StaleData.StaysCurrentExactlyWhen | packages/cli/src/workflow-helpers.ts:288-308 | the data of a waiting row stop being its epoch's own if and only if a child stores an update prepared in an earlier epoch |
| StaleData.AlwaysCurrentExactlyWhen | packages/cli/src/workflow-helpers.ts:288-308 | over every run from a cold start, a waiting row ever holds stale data if and only if some child is late |
| StaleData.StepKeepsBounded | packages/cli/src/workflow-helpers.ts:288-308 | no row and no attempt holds data of an epoch still to come |
| StaleData.EpochsAreRewaits | packages/cli/src/active-executions.ts:95-107 | an execution is at its old epoch if and only if it has not started to wait again |
| StaleData.WinIsCurrentExactlyWhen | packages/cli/src/active-executions.ts:93-112 | over every run from a cold start, before a load and after it: a winning resume runs what it loaded, and that is the resumed epoch's data if and only if the execution has not started to wait again in between and the row was not stale at the load |
| StaleRuns.WaitsAgain | packages/cli/src/wait-tracker.ts:97-145 | from every state in which an execution waits: a second attempt, of any process, wins the epoch and the execution waits again, while everybody else is held up |
| StaleRuns.StaleDataCanWin | packages/cli/src/active-executions.ts:103-112 | from every state in which an attempt has loaded a waiting execution: held up until the execution waits again, it wins the new epoch with the data of the old one; the update checks the status alone |
| StaleRuns.TimerLoads | packages/cli/src/wait-tracker.ts:101-128 | ... and such an attempt is two steps away from every state with a waiting execution |
| StaleRuns.LateChildUpdateOverwrites | packages/cli/src/workflow-helpers.ts:305-308 | from every state in which a child holds a new stack for its waiting parent: held up until the parent waits again, it overwrites the newer stack |
| WaitTracker.WaitTracker.constructor | packages/cli/src/wait-tracker.ts:19-26 | a new tracker has no entries and no timers |
| WaitTracker.WaitTracker.StartTracking | packages/cli/src/wait-tracker.ts:48-57 | sets the main timer and nothing else |
| WaitTracker.WaitTracker.GetWaitingExecutions | packages/cli/src/wait-tracker.ts:59-87 | the loop arms a timer for each row whose id has no entry at its turn |
| WaitTracker.WaitTracker.TimerFires | packages/cli/src/wait-tracker.ts:81-83 | the callback forgets the entry of its id, whichever timer that entry holds |
| WaitTracker.WaitTracker.StopExecution | packages/cli/src/wait-tracker.ts:89-95 | clears the timer of the entry and removes it; no effect for an unknown id |
| WaitTracker.WaitTracker.StartExecution | packages/cli/src/wait-tracker.ts:97-99 | removes the entry and leaves its timer armed |
| WaitTracker.WaitTracker.StopTracking | packages/cli/src/wait-tracker.ts:171-180 | clears the timers of all entries and keeps the entries; no effect before the first start |
| WaitTracker.PollArmsExactlyTheMissing | packages/cli/src/wait-tracker.ts:75-86 | a poll arms exactly one timer, with the delay of the first row of that id, for each listed execution without an entry, and leaves all else alone |
| WaitTrackerLaws.TimersChangeExactlyWhen | packages/cli/src/wait-tracker.ts:59-180 | a timer is disarmed exactly by firing, by the stop of the execution whose entry holds it, or by stepping down while an entry holds it |
| WaitTrackerLaws.EntriesChangeExactlyWhen | packages/cli/src/wait-tracker.ts:59-99 | an entry appears by a poll that lists it and goes by a stop, a start or a timer of its id, and in no other way |
| WaitTrackerLaws.StoppedStaysQuiet | packages/cli/src/wait-tracker.ts:89-95 | over every run in which no poll lists it again, no timer of a stopped execution is armed |
| WaitTrackerLaws.KeepsOneTimerEachExactlyWhen | packages/cli/src/wait-tracker.ts:59-180 | "entry if and only if armed timer" survives a step if and only if it is not stopping with entries nor resuming past a timer |
| WaitTrackerLaws.OneTimerEachThroughout | packages/cli/src/wait-tracker.ts:59-180 | the same over every run without these two |
| WaitTrackerLaws.AtMostOneArmed | packages/cli/src/wait-tracker.ts:75-86 | then no execution has two armed timers |
| WaitTrackerLaws.StepDownStrandsExactly | packages/cli/src/wait-tracker.ts:171-180 | stepping down strands exactly the executions whose armed timers all belong to their entry |
| WaitTrackerLaws.StaysStrandedExactlyWhen | packages/cli/src/wait-tracker.ts:77-77 | a stranded execution stays so through every poll and every new leadership, until it is started or stopped by id |
| WaitTrackerLaws.StrandedUntilTouched | packages/cli/src/wait-tracker.ts:59-87 | the same over every run |
| WaitTrackerLaws.TwoTimersForOne | packages/cli/src/wait-tracker.ts:97-99 | concrete run: resumed past its timer, an execution that waits again has two armed timers |
| Deadlines.SubworkflowTimeout | packages/cli/src/workflow-execute-additional-data.ts:319-330 | the deadline handed to a sub-workflow, as computed step by step |
| Deadlines.TightensExactlyWhen | packages/cli/src/workflow-execute-additional-data.ts:324-327 | no later than the parent's, except exactly when the parent's is 0 and the own limit ends later |
| Deadlines.NestedDeadlineIsTheEarliest | packages/cli/src/workflow-execute-additional-data.ts:319-330 | at any depth the deadline is the earliest of all limits set above and the own one |
| Deadlines.NestedDeadlinesTighten | packages/cli/src/workflow-execute-additional-data.ts:319-330 | at any depth the deadline is no later than any ancestor's |
| Deadlines.RunMainProcess | packages/cli/src/workflow-runner.ts:225-255 | soft timestamp and hard stop: a limited run is stopped at max(now, given start + 1000 * limit), or its full limit after now without a given start |
| Deadlines.RunKeepsOneStart | packages/@n8n/db/src/repositories/execution.repository.ts:387-412 | over every run the first start stays: `setRunning` sets it once, updates drop theirs, and whoever has read one has read that one |
| Deadlines.WaitingExtendsNothing | packages/cli/src/workflow-runner.ts:313-335 | over every run, each limited segment that was given a start is stopped at max(now, first start + 1000 * limit), however often the execution waited |
| Deadlines.OneStopForAllSegments | packages/cli/src/workflow-runner.ts:315-321 | two such segments of one execution and limit are stopped at the same instant |
| Deadlines.WaitingRowsHaveTheirStart | packages/cli/src/wait-tracker.ts:120-128 | a timer or child that finds the execution waiting passes on its first start |
| Deadlines.FoundResumesExtendNothing | packages/cli/src/wait-tracker.ts:101-128 | over every run, a timer or child that finds the execution waiting resumes it, whatever happens in between, with a segment stopped at max(now, first start + 1000 * limit) |
| Deadlines.Limit | packages/cli/src/workflow-runner.ts:225-229 | the own limit if there is one, else the default, never above the maximum; no limit if that is not positive |
| Deadlines.CountsFromTheStartExactlyWhen | packages/cli/src/webhooks/webhook-helpers.ts:587-594 | a segment's stop is counted from the first start if and only if it was given a start or begins at that instant: resumes by webhook, form or chat pass none |
| Deadlines.WebhookResumesExtend | packages/cli/src/webhooks/webhook-helpers.ts:626-632 | concrete run: a wait of d ms ended by a webhook moves the hard stop by d |
| Deadlines.SoftWithinHardExactlyWhen | packages/cli/src/workflow-runner.ts:248-254 | the soft deadline lies within the hard one if and only if the run was prepared no later than the execution started, or has run out before the timer is set |
| Deadlines.ChildrenOutliveTheHardStop | packages/cli/src/workflow-execute-additional-data.ts:319-330 | sub-workflows of a resumed run may outlive its hard stop by the time between start and resume |
| CredentialTypes.GetParentTypes | packages/cli/src/credential-types.ts:26-38 | the loop over the array it extends terminates on every acyclic relation and returns the list by generations |
| CredentialTypes.VisitsAreGenerations | packages/cli/src/credential-types.ts:33-35 | visiting pushed elements one by one and generation by generation gives the same sequence |
| CredentialTypes.ListsExactlyTheAncestors | packages/cli/src/credential-types.ts:26-38 | a type is listed if and only if it is a proper ancestor |
| CredentialTypes.RankedExactlyWhenAcyclic | packages/cli/src/credential-types.ts:26-38 | the termination hypothesis holds if and only if no type is its own ancestor |
| CredentialTypes.NearestFirstOnChains | packages/cli/src/credential-types.ts:26-38 | with single parents, first occurrences come nearest first whatever duplicates the loop adds |
| CredentialsOverwrites.CredentialsOverwrites.constructor | packages/cli/src/credentials-overwrites.ts:18-20 | starts without overwrites and with an empty memo |
| CredentialsOverwrites.CredentialsOverwrites.GetOverwrites | packages/cli/src/credentials-overwrites.ts:158-188 | the recursive merge, with the memo exactly as the code leaves it |
| CredentialsOverwrites.CredentialsOverwrites.SetPlainData | packages/cli/src/credentials-overwrites.ts:102-115 | in any key order and for any number of parents, the flattened table keeps every original value; with single parents it gains only inherited ones, and every key that stands apart from earlier ones gains all of them |
| CredentialsOverwrites.CredentialsOverwrites.SetData | packages/cli/src/credentials-overwrites.ts:117-126 | what is saved is the flattened table, and only with persistence |
| CredentialsOverwrites.CredentialsOverwrites.Get | packages/cli/src/credentials-overwrites.ts:190-197 | the reverse, map, filter, reduce over the ancestors |
| CredentialsOverwrites.CredentialsOverwrites.ApplyOverwrite | packages/cli/src/credentials-overwrites.ts:139-156 | non-blank data stay; a blank key takes the value that `get` finds, or stays; with single parents that is the value of the nearest type that defines it in the table originally given |
| CredentialsOverwrites.CredentialsOverwrites.Fill | packages/cli/src/credentials-overwrites.ts:146-155 | the filling loop touches blank keys only |
| CredentialsOverwrites.SameEffective | packages/cli/src/credentials-overwrites.ts:108-114 | a partly flattened table answers every lookup like the original |
| CredentialsOverwrites.ResolveIsSound | packages/cli/src/credentials-overwrites.ts:158-188 | whatever the memo, an answer contains the own entry and nothing that is not inherited |
| CredentialsOverwrites.FlattenStaysBetween | packages/cli/src/credentials-overwrites.ts:108-114 | every key order and memo state of the flattening loop keeps that |
| CredentialsOverwrites.FirstResolutionIsFull | packages/cli/src/credentials-overwrites.ts:176-187 | with nothing on the line memoised the answer is the full merge |
| CredentialsOverwrites.GetIsEffective | packages/cli/src/credentials-overwrites.ts:190-197 | with single parents, the nearest definition wins although ancestors repeat |
| CredentialsOverwrites.FlatteningIsInvisible | packages/cli/src/credentials-overwrites.ts:102-115 | for every key order, `get` after flattening answers as on the original table |
| CredentialsOverwrites.ReloadsKeepEffective | packages/cli/src/credentials-overwrites.ts:83-130 | over any number of save, load and flatten rounds in any orders every effective value is kept |
| CredentialsOverwrites.FullMergeExactlyWhen | packages/cli/src/credentials-overwrites.ts:158-188 | whatever is memoised, an answer is the full merge if and only if every key defined on the line of the type is defined by a type that the call looks at |
| CredentialsOverwrites.MemoForgetsTheMerge | packages/cli/src/credentials-overwrites.ts:159-162 | whatever a call has looked at answers its raw entry afterwards: the full merge if and only if that entry defines all that the type inherits |
| CredentialsOverwrites.VisitingAChildForgets | packages/cli/src/credentials-overwrites.ts:108-114 | so visiting a child in the flattening loop spoils the answer for a parent that inherits a key |
| CredentialsOverwrites.FlattenKeepsOwn | packages/cli/src/credentials-overwrites.ts:108-114 | for any number of parents, any key order and memo, flattening keeps every own value |
| CredentialsOverwrites.FlattenedExactly | packages/cli/src/credentials-overwrites.ts:108-114 | with single parents the entry of each key ends with exactly the keys defined by a type that the loop looks at when it comes to it, with the values it inherits; an unrecognised type gains nothing |
| CredentialsOverwrites.FlattenedFullyExactlyWhen | packages/cli/src/credentials-overwrites.ts:108-114 | ... which is all that its line defines if and only if those types define all of it |
| CredentialsOverwrites.MemoIsTheLines | packages/cli/src/credentials-overwrites.ts:158-188 | the memo at a visit is everything on the lines of the keys visited before |
| CredentialsOverwrites.FlattenedFully | packages/cli/src/credentials-overwrites.ts:102-115 | a key whose recognised line shares no type with an earlier key, the first key in any case, ends with everything that it inherits from anywhere on its line |
| CredentialsOverwrites.VisitStoresEveryParent | packages/cli/src/credentials-overwrites.ts:176-187 | with any number of parents a visit stores every key of every recognised parent |
| CredentialsOverwrites.TwoParentsDisagree | packages/cli/src/credentials-overwrites.ts:176-197 | over every acyclic relation: for each type whose first and last parent differ there is a table for which `get` answers the first parent's value before flattening and the last one's after it, in every key order |
| CredentialsOverwrites.InvisibleExactlyWhen | packages/cli/src/credentials-overwrites.ts:102-115 | flattening is invisible to `get`, for every table and key order, if and only if no type has several parents |
| InvalidCredentials.ReplaceUse | packages/cli/src/workflow-helpers.ts:127-210 | one turn of the inner loop, with both caches |
| InvalidCredentials.ReplaceUses | packages/cli/src/workflow-helpers.ts:126-211 | the inner loop over one node |
| InvalidCredentials.ReplaceInvalidCredentials | packages/cli/src/workflow-helpers.ts:110-214 | the whole pass, in place, equals the pass told by its history without caches |
| InvalidCredentials.CachesAgreeExactlyWhen | packages/cli/src/workflow-helpers.ts:114-211 | every enabled node gets what an uncached lookup gives, up to writing a bare name as details, if and only if no dangling id is used again under another name |
| ReplacementLaws.ReplacedExactly | packages/cli/src/workflow-helpers.ts:110-214 | every reference of every node that is not disabled, told by positions alone: by name exactly the one credential of its type with that name, unchanged if none or several; by id the credential with that id and type; else what the first lost reference with this id kept, and the first by its name |
| InvalidCredentials.DisabledAreUntouched | packages/cli/src/workflow-helpers.ts:121-124 | disabled nodes and nodes without credentials are unchanged |
| InvalidCredentials.PassIsIdempotent | packages/cli/src/workflow-helpers.ts:121-211 | a second pass changes nothing, with no hypothesis on names |
| ConnectionPool.ConnectionPoolManager.constructor | packages/nodes-base/utils/connection-pool-manager.ts:57-68 | starts with no pools |
| ConnectionPool.ConnectionPoolManager.AbortController | packages/nodes-base/utils/connection-pool-manager.ts:118-121 | the first abort runs the listener, which cleans up the key; the re-entrant calls terminate and evict that key only |
| ConnectionPool.ConnectionPoolManager.CleanupConnection | packages/nodes-base/utils/connection-pool-manager.ts:126-133 | removes the entry and aborts exactly its controller |
| ConnectionPool.ConnectionPoolManager.GetConnection | packages/nodes-base/utils/connection-pool-manager.ts:91-102 | a cached pool is used again and its time renewed; otherwise a controller for a new one |
| ConnectionPool.ConnectionPoolManager.FinishConnection | packages/nodes-base/utils/connection-pool-manager.ts:103-124 | registers the new pool unless it was aborted meanwhile |
| ConnectionPool.ConnectionPoolManager.CleanupStaleConnections | packages/nodes-base/utils/connection-pool-manager.ts:139-147 | deleting entries of the map it walks, in any order, the sweep evicts exactly the stale ones |
| ConnectionPool.ConnectionPoolManager.PurgeConnections | packages/nodes-base/utils/connection-pool-manager.ts:153-157 | evicts every entry |
| ConnectionPool.AbortOfRemoved | packages/nodes-base/utils/connection-pool-manager.ts:126-133 | aborting the controller of an entry just removed meets no other entry |
| ConnectionPoolLaws.NoCachedPoolIsAborted | packages/nodes-base/utils/connection-pool-manager.ts:91-157 | in every reachable state, under any interleaving, no cached pool is aborted |
| ConnectionPoolLaws.LosesAPoolExactlyWhen | packages/nodes-base/utils/connection-pool-manager.ts:103-117 | a step leaves a pool neither cached nor aborted if and only if it finishes a miss whose key has been filled meanwhile |
| ConnectionPoolLaws.FinishAccountedExactlyWhen | packages/nodes-base/utils/connection-pool-manager.ts:117-117 | it is the pool registered first that is lost |
| ConnectionPoolLaws.LeakStays | packages/nodes-base/utils/connection-pool-manager.ts:126-157 | no use, sweep or purge closes a lost pool, only its own abort signal |
| ConnectionPoolLaws.LeakedForGood | packages/nodes-base/utils/connection-pool-manager.ts:126-157 | the same over every run |
| ConnectionPoolLaws.TwoMissesLeak | packages/nodes-base/utils/connection-pool-manager.ts:91-117 | concrete run: two overlapping gets of one key |
| ConnectionPoolLaws.ClosesAnotherExactlyWhen | packages/nodes-base/utils/connection-pool-manager.ts:118-133 | an abort signal closes another pool if and only if its own was lost and the other holds its key |
| ConnectionPoolLaws.SeparateMissesLoseNothing | packages/nodes-base/utils/connection-pool-manager.ts:91-133 | if misses on one key never overlap, every pool is cached or aborted, never both, and no listener removes a successor |
| ConnectionPoolLaws.NoPoolIsTooOld | packages/nodes-base/utils/connection-pool-manager.ts:67-67 | at any moment a cached pool was used within ttl plus interval, right after a sweep within ttl |
| ConnectionPoolLaws.KeptWhileUsed | packages/nodes-base/utils/connection-pool-manager.ts:91-147 | over every run an entry records the last get that hit or the registration of its key; a sweep removes it exactly when that is more than ttl ago, and it is gone by ttl plus interval if it is not used again |
| ConnectionPoolLaws.SignalIsFinal | packages/nodes-base/utils/connection-pool-manager.ts:103-121 | a pool whose signal comes at any stage, even before it is connected, is never in the map again |
| ConnectionPoolLaws.EvictedExactlyWhen | packages/nodes-base/utils/connection-pool-manager.ts:139-157 | an entry leaves the map only by purge, by a sweep more than ttl after its use, or by an abort signal of its key |
| Backtracking.PreviousTaskData | packages/nodes-base/utils/workflow-backtracking.ts:24-42 | a task is found if and only if the first source names a run of a node that ran, the first one when it gives no run index, and then it is that run |
| Backtracking.FindPairedItemThroughWorkflowData | packages/nodes-base/utils/workflow-backtracking.ts:44-113 | the loop ends whenever the source chain does and equals the lookups composed along it |
| Backtracking.StartsWithTheLastRun | packages/nodes-base/utils/workflow-backtracking.ts:53-78 | it starts with the last run of the node that ran last |
| Backtracking.RankedChainsEnd | packages/nodes-base/utils/workflow-backtracking.ts:86-110 | if sources only name tasks of smaller rank, the chain ends |
| Backtracking.TraceComposes | packages/nodes-base/utils/workflow-backtracking.ts:86-110 | searching a chain is searching its parts one after the other |
| Backtracking.TraceFollowsTheLineage | packages/nodes-base/utils/workflow-backtracking.ts:88-107 | where every step finds an item, the result is the pairing of the last item of the one lineage from the given item |
| Backtracking.RestartsAfterTheLastMiss | packages/nodes-base/utils/workflow-backtracking.ts:91-107 | a step that finds no item does not end the search: it goes on from the requested index in the next task |
| Backtracking.UndefinedWhenBrokenExactlyWhen | packages/nodes-base/utils/workflow-backtracking.ts:15-18 | the promise to return undefined when backtracking fails holds if and only if no step misses its item, the last one does, or the lineage from the requested index after the last miss ends in an unpaired item |
| Backtracking.UndefinedWhenPairedExactlyWhen | packages/nodes-base/utils/workflow-backtracking.ts:15-18 | where the items of the run's first task are paired, it holds if and only if no step misses or the last one does |
| Backtracking.BrokenLinkIsMasked | packages/nodes-base/utils/workflow-backtracking.ts:91-107 | concrete run of three nodes: a missing item is answered with an unrelated pairing |
| Backtracking.NamedTracesCompose | packages/nodes-base/utils/workflow-backtracking.ts:86-110 | through any number of nodes, each with any number of inputs and outputs, the result is the composition of what the items name |
| Backtracking.MissingPartsDefault | packages/nodes-base/utils/workflow-backtracking.ts:93-103 | a missing item is the one asked for, a missing input the first, a list of references counts as none |
| ActivationQueue.ActiveWorkflowManager.constructor | packages/cli/src/active-workflow-manager.ts:77-77 | starts with an empty queue, with one main or several |
| ActivationQueue.ActiveWorkflowManager.AddQueuedWorkflowActivation | packages/cli/src/active-workflow-manager.ts:786-838 | replaces an entry, clearing its timer, and arms a timer of one second |
| ActivationQueue.ActiveWorkflowManager.RemoveQueuedWorkflowActivation | packages/cli/src/active-workflow-manager.ts:843-848 | clears the timer of the entry and removes it |
| ActivationQueue.ActiveWorkflowManager.RemoveAllQueuedWorkflowActivations | packages/cli/src/active-workflow-manager.ts:853-857 | does so for every entry |
| ActivationQueue.ActiveWorkflowManager.RetryEnds | packages/cli/src/active-workflow-manager.ts:798-821 | activation removes the entry; failure doubles the delay up to a day and arms the next timer; without an entry it fails before doing anything |
| ActivationQueue.DelaysDouble | packages/cli/src/active-workflow-manager.ts:802-805 | over every run, however calls overlap, after n failures the delay is min(1000 * 2^n, 86400000) |
| ActivationQueue.KeepsOneTimerEachExactlyWhen | packages/cli/src/active-workflow-manager.ts:786-857 | one timer for each queued workflow and none for others survives a step if and only if it is not touching a workflow during its retry nor, with several mains, a retry that does not fail |
| ActivationQueue.OneTimerEachThroughout | packages/cli/src/active-workflow-manager.ts:786-857 | the same over every run without these |
| ActivationQueue.OneArmedTimerEach | packages/cli/src/active-workflow-manager.ts:786-857 | with one main and retries as single steps, however they end, every queued workflow has exactly one armed timer and every other none |
| ActivationQueue.RequeuedDuringRetry | packages/cli/src/active-workflow-manager.ts:818-837 | queued again during its retry, which then fails, a workflow has two armed timers |
| ActivationQueue.HandedOverIsStuck | packages/cli/src/active-workflow-manager.ts:580-593 | with several mains a retry only publishes a command: its workflow stays queued without a timer |
| ActivationQueue.StaysStuckExactlyWhen | packages/cli/src/active-workflow-manager.ts:786-857 | it stays so through every step but a call for that workflow or one for all |
| ActivationQueue.StuckUntilTouched | packages/cli/src/active-workflow-manager.ts:786-857 | the same over every run |
| KeyPaths.GetAllKeyPaths | packages/cli/src/utils.ts:103-124 | pushing onto the shared array through recursion and loops appends what the pure recursion collects |
| KeyPathLaws.CollectIsRendered | packages/cli/src/utils.ts:109-122 | the strings pushed are the step sequences found, written out |
| KeyPathLaws.RenderIsSpelled | packages/cli/src/utils.ts:109-118 | with safe keys the text written step by step is the path from front to back: a dot before every key but the first, brackets around every index |
| KeyPathLaws.DecimalReads | packages/cli/src/utils.ts:111-111 | the digits of an index read back as the index, without leading zeros |
| KeyPathLaws.FoundExactly | packages/cli/src/utils.ts:109-122 | whatever the keys look like, a step sequence is found if and only if following it reaches an accepted string property |
| KeyPathLaws.RenderIsInjective | packages/cli/src/utils.ts:111-115 | with safe keys, a written path can be read back: two paths never look the same |
| KeyPathLaws.ReturnsEveryPathOnce | packages/cli/src/utils.ts:103-124 | with safe keys, a text is returned if and only if it is the path of an accepted string property, once, and names that property alone |
| KeyPathLaws.ReturnsWhatIsReached | packages/cli/src/utils.ts:103-124 | whatever the keys look like, a text is returned if and only if an accepted string property is written so |
| KeyPathLaws.ReturnsOnceExactlyWhen | packages/cli/src/utils.ts:103-124 | no text is returned twice if and only if no two accepted properties are written alike |
| KeyPathLaws.ElementsAreSkipped | packages/cli/src/utils.ts:109-118 | a string that is an array element is never found; its path is returned only if a property is written like it, which safe keys rule out |
| KeyPathLaws.DottedKeysCollide | packages/cli/src/utils.ts:115-117 | concrete value: a key with a dot makes two properties share one path |

## Left out

- Queue mode (Bull jobs, `enqueueExecution`) and pub/sub messages: the record of the main process is not kept in step with the worker there.
- Heap identity: shared objects are named by index, so aliasing is explicit in the state instead of in references; credential details shared between nodes are values, nothing updates them in place.
- `attachWorkflowExecution`, `sendChunk`, `getActiveExecutions`: single reads or assignments; the workflow run itself and streaming responses are not part of this model.
- ActiveExecutions.ActiveExecutions.Add: one call with the outcomes of its awaits as a parameter; calls that interleave are the steps of `ResumeProtocol`.
- ActiveExecutions.ActiveExecutions.StopExecution: does not cancel the attached workflow run, which is not part of this model.
- WaitTracker.WaitTracker.StartTracking: the poll it starts is asynchronous and therefore a call of its own, `GetWaitingExecutions`.
- `LimitedProtocol`: all executions are of one limited mode, queued calls are told apart by their execution id, and the service stays enabled; unlimited modes and shutdown are those of `ConcurrencyControl`.
- `has`, telemetry and the events of the concurrency queue.
- Deletion of execution rows while they are being resumed, and failing database calls outside `add`.
- `getDataLastExecutedNodeData` and `shouldRestartParentExecution`: the child's output is a parameter of its attempt.
- `WorkflowExecute`, which checks the soft deadline: not part of this model.
- Node limits of `setTimeout` (delays above 2^31 - 1 ms fire at once, negative ones after 1 ms) and fractional or non-numeric timeout settings.
- Encryption and JSON of saved overwrites are identities; the `reloading` guard, broadcasting and the front-end reload are I/O.
- ResumeData.ParentRunsWithAChildsOutput: promises nothing when a child's update is held up over an epoch, or found no waiting parent with a stack, because the code then runs the parent with other data (`AlwaysCurrentExactlyWhen`, `WinIsCurrentExactlyWhen`).
- KeyPathLaws.ReturnsEveryPathOnce: keys that are empty or contain a dot or a bracket are excluded, because paths with them can coincide (`DottedKeysCollide`).
- Cache keys that collide with properties of JavaScript's object prototype, and credential details whose id is undefined instead of null.
- Creating, hashing and using the pools, and the pools' own handling of an abort.
- Backtracking.FindPairedItemThroughWorkflowData: a cyclic source chain is excluded, because the original does not end on it.
- Webhooks and triggers of activated workflows; only the retry queue of their manager is modelled.
- Logging, events, error reporting, push messages, HTTP, CLI, file loading, license checks.

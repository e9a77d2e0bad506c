# micro-schedule: the scheduling rule, modelled in Dafny

micro-schedule is a tiny periodic scheduler. A caller hands `schedule` a task
and a delay. The service wraps them in a `Job` whose start time is "now plus
delay" and puts it on a priority queue ordered by start time. A single trigger
thread loops over that queue:

- when the queue is empty, it parks;
- when the earliest job is not yet due, it parks until that job's start time;
- when the earliest job is due, it polls the job, hands the task to a worker
  pool, and offers a fresh job with the same task and delay that is due
  `delay` after the current time.

This project models that rule without the threads. It has three modules:

- `Jobs` (`job.dfy`): the `Job` value, its setters, and `CompareTo`, which
  orders jobs by start time only. Lemmas show that the order ignores task and
  delay, is antisymmetric and transitive, and is a total preorder.
- `JobQueue` (`job_queue.dfy`): the priority queue, as a sequence whose order
  means nothing. It has `Offer`, `Peek` and `Poll`. Every contract speaks of
  "a job of least start time", because the tie-break between jobs that start
  together is unspecified. `TaskDelays` is the multiset of (task, delay) pairs
  of the pending jobs.
- `ScheduleService` (`schedule_service.dfy`):
  - `Schedule` is the `schedule` call.
  - `Step` is one iteration of the trigger loop, taken as one atomic step.
    Its `Outcome` is `Idle`, `WaitUntil(deadline)`, `Dispatched(job)`,
    `Crashed(job)` or `Stopped`.
  - `Run` applies any interleaving of `schedule` calls and trigger steps.
  - Lemmas cover the no-catch-up rule, start-time order of dispatches,
    preemption by an earlier job, the invariance of the pending
    (task, delay) pairs, and when a null task stops the trigger.

The clock is a parameter. The loop reads the clock twice: once to decide
whether the head is due (`ScheduleService.java:59`), and once to compute the
next start time (`ScheduleService.java:63`). So `Step` takes two readings,
`now` and `later`. The no-catch-up and ordering lemmas assume `now <= later`,
because the wall clock the source reads is not guaranteed to be monotone.

The worker pool is modelled as the trigger's `log`, the sequence of tasks
handed to it so far. Apart from null, tasks are opaque identifiers.

`schedule` validates neither its task nor its delay
(`ScheduleService.java:32-36`). `NegativeDelayIsDueAtOnce` shows that a
negative delay gives a job that is already due. A null task is accepted too,
but when that job comes due the loop polls it (line 60) and hands null to
the executor (line 61), which throws. Nothing in the loop catches the
exception, so the trigger thread ends: the polled job is lost, later
`schedule` calls still fill the queue, and nothing is dispatched again. Tasks
are therefore `Null` or `Runnable(id)`, and the trigger carries an `alive`
flag. `Step` ends with `Crashed(job)` when it polls a null task, and with
`Stopped` once the trigger has ended.

## Model

| member | source | states |
|---|---|---|
| `Jobs.SetStartTime` | src/main/java/com/tiv/schedule/Job.java:35-37 | the new start time is stored; task and delay are unchanged |
| `Jobs.SetTask` | src/main/java/com/tiv/schedule/Job.java:43-45 | the new task is stored; start time and delay are unchanged |
| `Jobs.SetDelay` | src/main/java/com/tiv/schedule/Job.java:51-53 | the new delay is stored; task and start time are unchanged |
| `Jobs.ConstructAndSetRoundTrip` | src/main/java/com/tiv/schedule/Job.java:25-53 | the constructor's three arguments are read back by the getters; setting a field to its current value changes nothing; for each of the three setters, of two writes the last one wins |
| `Jobs.CompareTo` | src/main/java/com/tiv/schedule/Job.java:55-58 | the result is -1, 0 or 1, and is negative, zero or positive exactly when the first job starts before, together with, or after the second |
| `Jobs.CompareIgnoresTaskAndDelay` | src/main/java/com/tiv/schedule/Job.java:56-58 | jobs with equal start times compare as equal, and compare alike with any third job, whatever their tasks and delays |
| `Jobs.CompareAntisymmetric` | src/main/java/com/tiv/schedule/Job.java:56-58 | swapping the two jobs negates the comparison |
| `Jobs.CompareTransitive` | src/main/java/com/tiv/schedule/Job.java:56-58 | "no later than", "strictly before" and "together with" are each transitive |
| `Jobs.OrderIsTotalPreorder` | src/main/java/com/tiv/schedule/Job.java:56-58 | "compares at most 0" is reflexive, transitive and total, which is the order a priority queue needs |
| `JobQueue.Offer` | src/main/java/com/tiv/schedule/ScheduleService.java:36 | the queue grows by one, and its multiset of jobs gains exactly the offered job |
| `JobQueue.MinIndex` | src/main/java/com/tiv/schedule/ScheduleService.java:47 | a non-empty queue has a position that no pending job starts before |
| `JobQueue.MinStart` | src/main/java/com/tiv/schedule/ScheduleService.java:57-59 | the least start time is some pending job's start time, and no pending job starts earlier |
| `JobQueue.Peek` | src/main/java/com/tiv/schedule/ScheduleService.java:57 | `None` exactly on an empty queue; otherwise a pending job that no pending job starts before |
| `JobQueue.Poll` | src/main/java/com/tiv/schedule/ScheduleService.java:60 | on an empty queue, nothing is removed and the queue is unchanged; otherwise a minimal pending job is removed, and the rest plus that job is the old multiset |
| `JobQueue.PollAgreesWithPeek` | src/main/java/com/tiv/schedule/ScheduleService.java:57-60 | with no mutation in between, the job polled is the job peeked |
| `JobQueue.PollAfterEarliestOffer` | src/main/java/com/tiv/schedule/ScheduleService.java:47 | a job offered ahead of every pending job is the next one polled, and the rest is the old queue |
| `JobQueue.TaskDelaysPermutation` | src/main/java/com/tiv/schedule/ScheduleService.java:47 | two queues holding the same multiset of jobs hold the same (task, delay) pairs, whatever their internal order |
| `JobQueue.ReplacePreservesTaskDelays` | src/main/java/com/tiv/schedule/ScheduleService.java:60-64 | replacing a pending job by one with the same task and delay keeps the pending (task, delay) pairs, whatever order the queue keeps |
| `JobQueue.RemoveLosesTaskDelay` | src/main/java/com/tiv/schedule/ScheduleService.java:60-61 | removing one pending job, whatever order the queue keeps, loses exactly that job's (task, delay) pair |
| `ScheduleService.Schedule` | src/main/java/com/tiv/schedule/ScheduleService.java:32-36 | exactly one job is added, with the given task, start time now + delay, and the given delay; every pending job stays pending; the dispatch log and whether the trigger runs are untouched |
| `ScheduleService.Step` | src/main/java/com/tiv/schedule/ScheduleService.java:50-70 | a stopped trigger does nothing; otherwise an empty queue idles and changes nothing; if the least start time is at or after `now`, it waits until that start time and changes nothing; otherwise it removes a minimal job that started before `now`. If that job's task is non-null, it appends exactly that task to the log and reinserts the job with start time later + delay, same task and same delay, keeping the queue size. If the task is null, the job is lost, the log is unchanged and the trigger stops |
| `ScheduleService.DueNowIsNotDispatched` | src/main/java/com/tiv/schedule/ScheduleService.java:59-67 | on a running trigger, a job due exactly at `now` is not dispatched: the step waits until `now` and changes nothing |
| `ScheduleService.NoCatchUp` | src/main/java/com/tiv/schedule/ScheduleService.java:59-64 | after any dispatch, the replacement job is pending and due at later + delay, whatever the old start time was; when in addition delay >= 0 and now <= later, it starts strictly after the dispatched job and is not due again at `now` |
| `ScheduleService.StepPreservesTaskDelays` | src/main/java/com/tiv/schedule/ScheduleService.java:60-64 | a trigger step leaves the multiset of pending (task, delay) pairs unchanged, except that a crash removes exactly the pair of the job it polled |
| `ScheduleService.ScheduleAddsTaskDelay` | src/main/java/com/tiv/schedule/ScheduleService.java:34-36 | `schedule` adds exactly its own (task, delay) pair to the pending pairs |
| `ScheduleService.DispatchOrderMonotone` | src/main/java/com/tiv/schedule/ScheduleService.java:57-64 | after a dispatch with non-negative delays and now <= later, no pending job starts before the dispatched one, and delays stay non-negative |
| `ScheduleService.ConsecutiveDispatchesInOrder` | src/main/java/com/tiv/schedule/ScheduleService.java:51-68 | if the step right after a dispatch also dispatches, the second job starts no earlier than the first (non-negative delays, now <= later) |
| `ScheduleService.EarlierJobPreempts` | src/main/java/com/tiv/schedule/ScheduleService.java:32-38 | on a running trigger, a job scheduled to start before every pending job is the job polled by the next step that finds it due: dispatched if its task is non-null, a crash if it is null |
| `ScheduleService.NegativeDelayIsDueAtOnce` | src/main/java/com/tiv/schedule/ScheduleService.java:34 | a negative delay is accepted and gives a job that started before the call; the next step of a running trigger at a time no earlier than the call polls a job |
| `ScheduleService.Run` | src/main/java/com/tiv/schedule/ScheduleService.java:32-68 | over any interleaving of `schedule` calls and trigger steps, the dispatch log only grows, a stopped trigger stays stopped, and the queue holds its initial jobs plus one per `schedule` call, less the one job lost if the trigger stopped during the run |
| `ScheduleService.RunTaskDelays` | src/main/java/com/tiv/schedule/ScheduleService.java:32-68 | over any run in which the trigger does not stop, the pending (task, delay) pairs change only by the pairs the `schedule` calls submitted; in any run, the pending pairs are among those, and every missing one has a null task |
| `ScheduleService.StoppedTriggerDispatchesNothing` | src/main/java/com/tiv/schedule/ScheduleService.java:50-70 | once the trigger thread has ended, no run of further `schedule` calls or steps dispatches anything or restarts it |
| `ScheduleService.StepKeepsRunnableTasks` | src/main/java/com/tiv/schedule/ScheduleService.java:59-64 | a step never puts a null task on the queue, and with no null task pending it does not stop the trigger |
| `ScheduleService.RunnableTasksKeepTriggerAlive` | src/main/java/com/tiv/schedule/ScheduleService.java:32-68 | a running trigger with no null task pending, to which no null task is submitted, is still running after any run |

## Left out

- Threads and `LockSupport` (`ScheduleService.java:50, 54, 67, 74, 82`): starting the trigger thread, `park`, `parkUntil` and `unpark`. The wait becomes the `Idle` or `WaitUntil(deadline)` outcome of `Step`.
- `wakeUp` and its unpark permit: the permit only decides *when* the trigger runs its next iteration, not what the iteration does. `Run` allows any interleaving of `schedule` calls and steps, which covers every wake-up order.
- The worker pool (`ScheduleService.java:18, 24, 61`): it runs tasks concurrently and out of sight. It is the append-only `log` of dispatched tasks.
- `System.currentTimeMillis()`: replaced by explicit clock readings (`now` on `schedule`; `now` and `later` on a step).
- The race between `peek` and `poll` (`ScheduleService.java:57, 60`): a concurrent `offer` in between could change the head. `Step` is atomic, so `Poll` removes the job `Peek` saw.
- Java `Long` overflow of `now + delay` (`ScheduleService.java:34, 63`): times are unbounded integers. A delay large enough to overflow would wrap to a start time in the past in the source.
- `ScheduleService.Schedule`: does not model the 64-bit wrap-around of `now + delay`, for the reason above.
- `ScheduleService.Step`: does not model the 64-bit wrap-around of `later + delay`, for the reason above.
- `Jobs.CompareTo`: does not model a null start time. In `Job` the start time and delay are boxed `Long` fields (`Job.java:18, 23`). The constructor and setters accept null for them, and `compareTo` then throws when it unboxes (`Job.java:57`). The model uses `int` fields, because every job the service builds has non-null fields: `schedule` takes a primitive `long` (`ScheduleService.java:32`), and line 63 reuses a queued job's non-null delay.
- `Jobs.SetStartTime`, `Jobs.SetTask`, `Jobs.SetDelay`: do not model in-place mutation. The Java setters change the object, so every reference to it sees the change. The model's setters return a new value instead, because the service never calls a setter, least of all on a job already in the queue.
- `Runnable` contents: a task is null or an opaque identifier, and running it is not modelled. An exception thrown by a task runs on a worker thread, not the trigger, so it does not affect the loop.
- The tie-break among jobs with equal start times in `PriorityBlockingQueue`: `MinIndex` happens to pick the first minimal position, but no contract depends on which one.
- `Main.java`: it is a demonstration with printing, date formatting and `Thread.sleep`.
- The console print at `ScheduleService.java:75`.

/** The scheduling rule of the service: `Schedule` submits a job, and `Step`
    is one iteration of the trigger thread's loop, taken as an atomic step
    over the queue. Time is a parameter. The worker pool is the log of
    tasks handed to it, which only ever grows. */
module ScheduleService {
  import opened Jobs
  import opened JobQueue

  /** How one iteration of the trigger loop ends. */
  datatype Outcome =
    | Idle                      // nothing pending: park with no deadline
    | WaitUntil(deadline: int)  // earliest job not yet due: park until its start time
    | Dispatched(job: Job)      // earliest job was due: polled, handed over, rescheduled
    | Crashed(job: Job)         // earliest job was due but its task is null: polled, and
                                // handing it over throws, which ends the trigger thread
    | Stopped                   // the trigger thread has ended: nothing happens

  /** The trigger's pending jobs, the tasks handed to the worker pool so
      far (oldest first), and whether the trigger thread is still running. */
  datatype Trigger = Trigger(queue: Queue, log: seq<Task>, alive: bool)

  datatype StepResult = StepResult(trigger: Trigger, outcome: Outcome)

  /** The job that replaces `j` after it is dispatched when the clock reads
      `now`: same task, same delay, due `delay` after `now`. */
  function Next(j: Job, now: int): Job {
    Job(j.task, now + j.delay, j.delay)
  }

  /** `schedule(task, delay)` called when the clock reads `now`: one new
      job joins the pending ones. Neither the task nor the delay is
      checked, and a stopped trigger still accepts jobs. */
  function Schedule(t: Trigger, task: Task, delay: int, now: int): (r: Trigger)
    ensures r.log == t.log && r.alive == t.alive
    ensures |r.queue| == |t.queue| + 1
    ensures multiset(r.queue) == multiset(t.queue) + multiset{Job(task, now + delay, delay)}
    ensures forall j :: j in t.queue ==> j in r.queue
  {
    t.(queue := Offer(t.queue, Job(task, now + delay, delay)))
  }

  /** One iteration of the trigger loop. The loop reads the clock twice:
      `now` when it decides whether the earliest job is due, `later` when
      it computes that job's next start time. Handing a null task to the
      worker pool throws, and nothing catches it: the polled job is lost
      and the trigger thread ends. */
  function Step(t: Trigger, now: int, later: int): (r: StepResult)
    ensures !t.alive ==> r == StepResult(t, Stopped)
    ensures t.alive ==> (r.outcome.Idle? <==> |t.queue| == 0)
    ensures t.alive ==> (r.outcome.WaitUntil? <==> |t.queue| > 0 && now <= MinStart(t.queue))
    ensures t.alive ==> (r.outcome.Dispatched? || r.outcome.Crashed? <==> |t.queue| > 0 && MinStart(t.queue) < now)
    ensures r.outcome.Idle? || r.outcome.WaitUntil? ==> r.trigger == t
    ensures r.outcome.WaitUntil? ==> r.outcome.deadline == MinStart(t.queue)
    ensures r.outcome.Dispatched? || r.outcome.Crashed? ==>
              && IsMin(t.queue, r.outcome.job)
              && r.outcome.job.startTime < now
              && (r.outcome.Crashed? <==> r.outcome.job.task.Null?)
    ensures r.outcome.Dispatched? ==>
              && r.trigger.log == t.log + [r.outcome.job.task]
              && multiset(r.trigger.queue)
                 == multiset(t.queue) - multiset{r.outcome.job} + multiset{Next(r.outcome.job, later)}
    ensures r.outcome.Crashed? ==>
              && r.trigger.log == t.log
              && multiset(r.trigger.queue) == multiset(t.queue) - multiset{r.outcome.job}
    ensures r.trigger.alive <==> t.alive && !r.outcome.Crashed?
    ensures |r.trigger.queue| == if r.outcome.Crashed? then |t.queue| - 1 else |t.queue|
  {
    if !t.alive then StepResult(t, Stopped)
    else
      match Peek(t.queue)
      case None => StepResult(t, Idle)
      case Some(head) =>
        if head.startTime < now then
          PollAgreesWithPeek(t.queue);
          var polled := Poll(t.queue);
          var job := polled.0.value;
          if job.task.Null? then
            StepResult(Trigger(polled.1, t.log, false), Crashed(job))
          else
            StepResult(Trigger(Offer(polled.1, Next(job, later)), t.log + [job.task], true), Dispatched(job))
        else
          StepResult(t, WaitUntil(head.startTime))
  }

  /** A job due exactly at `now` is not dispatched yet: the loop waits
      until its start time and changes nothing. */
  lemma DueNowIsNotDispatched(t: Trigger, now: int, later: int)
    requires t.alive
    requires |t.queue| > 0 && MinStart(t.queue) == now
    ensures Step(t, now, later) == StepResult(t, WaitUntil(now))
  {
  }

  /** No catch-up: however many intervals the dispatched job missed, its
      replacement is pending and due `delay` after the second clock
      reading. With a non-negative delay and a clock that does not run
      backwards it therefore starts strictly after the old job and is not
      due again at `now`. */
  lemma NoCatchUp(t: Trigger, now: int, later: int)
    ensures var r := Step(t, now, later);
            r.outcome.Dispatched? ==>
              && Next(r.outcome.job, later) in r.trigger.queue
              && Next(r.outcome.job, later).startTime == later + r.outcome.job.delay
    ensures var r := Step(t, now, later);
            r.outcome.Dispatched? && now <= later && r.outcome.job.delay >= 0 ==>
              && r.outcome.job.startTime < Next(r.outcome.job, later).startTime
              && now <= Next(r.outcome.job, later).startTime
  {
    var r := Step(t, now, later);
    if r.outcome.Dispatched? {
      assert Next(r.outcome.job, later) in multiset(r.trigger.queue);
    }
  }

  /** A step changes start times only: the pending (task, delay) pairs are
      the same before and after, except that a crash loses the pair of the
      job it polled. */
  lemma {:induction false} StepPreservesTaskDelays(t: Trigger, now: int, later: int)
    ensures var r := Step(t, now, later);
            !r.outcome.Crashed? ==> TaskDelays(r.trigger.queue) == TaskDelays(t.queue)
    ensures var r := Step(t, now, later);
            r.outcome.Crashed? ==>
              TaskDelays(t.queue) == TaskDelays(r.trigger.queue) + multiset{(r.outcome.job.task, r.outcome.job.delay)}
  {
    var r := Step(t, now, later);
    if r.outcome.Dispatched? {
      ReplacePreservesTaskDelays(t.queue, r.outcome.job, Next(r.outcome.job, later), r.trigger.queue);
    } else if r.outcome.Crashed? {
      RemoveLosesTaskDelay(t.queue, r.outcome.job, r.trigger.queue);
    }
  }

  /** `schedule` adds exactly the pair of its own task and delay. */
  lemma {:induction false} ScheduleAddsTaskDelay(t: Trigger, task: Task, delay: int, now: int)
    ensures TaskDelays(Schedule(t, task, delay, now).queue) == TaskDelays(t.queue) + multiset{(task, delay)}
  {
    var j := Job(task, now + delay, delay);
    TaskDelaysAppend(t.queue, [j]);
    assert TaskDelays([j]) == multiset{(task, delay)};
  }

  /** Every pending job has a non-negative delay. */
  ghost predicate NonNegativeDelays(q: Queue) {
    forall k :: 0 <= k < |q| ==> q[k].delay >= 0
  }

  /** Dispatches happen in start-time order: after a dispatch, with
      non-negative delays and a clock that does not run backwards, no
      pending job starts before the one just dispatched, and the delays
      stay non-negative. */
  lemma {:induction false} DispatchOrderMonotone(t: Trigger, now: int, later: int)
    requires NonNegativeDelays(t.queue)
    requires now <= later
    requires Step(t, now, later).outcome.Dispatched?
    ensures var r := Step(t, now, later);
            && NonNegativeDelays(r.trigger.queue)
            && forall k :: 0 <= k < |r.trigger.queue| ==>
                 r.outcome.job.startTime <= r.trigger.queue[k].startTime
  {
    var r := Step(t, now, later);
    var j := r.outcome.job;
    var q' := r.trigger.queue;
    forall k | 0 <= k < |q'|
      ensures q'[k].delay >= 0 && j.startTime <= q'[k].startTime
    {
      assert q'[k] in multiset(q');
      if q'[k] != Next(j, later) {
        assert q'[k] in multiset(t.queue);
      }
    }
  }

  /** If the step after a dispatch, with no `schedule` in between, also
      dispatches, the two jobs are handed over in non-decreasing start-time
      order. */
  lemma {:induction false} ConsecutiveDispatchesInOrder(t: Trigger, now1: int, later1: int, now2: int, later2: int)
    requires NonNegativeDelays(t.queue)
    requires now1 <= later1
    requires Step(t, now1, later1).outcome.Dispatched?
    ensures var r1 := Step(t, now1, later1);
            var r2 := Step(r1.trigger, now2, later2);
            r2.outcome.Dispatched? ==> r1.outcome.job.startTime <= r2.outcome.job.startTime
  {
    var r1 := Step(t, now1, later1);
    var r2 := Step(r1.trigger, now2, later2);
    DispatchOrderMonotone(t, now1, later1);
    if r2.outcome.Dispatched? {
      var k :| 0 <= k < |r1.trigger.queue| && r1.trigger.queue[k] == r2.outcome.job;
    }
  }

  /** No missed wake-up in the rule itself: a job scheduled to start before
      every pending job is the one the next due step of a running trigger
      polls, whatever the trigger was waiting for before; it is dispatched,
      or, if its task is null, it stops the trigger. */
  lemma EarlierJobPreempts(t: Trigger, task: Task, delay: int, at: int, now: int, later: int)
    requires t.alive
    requires forall k :: 0 <= k < |t.queue| ==> at + delay < t.queue[k].startTime
    requires at + delay < now
    ensures Step(Schedule(t, task, delay, at), now, later).outcome
            == if task.Null? then Crashed(Job(task, at + delay, delay)) else Dispatched(Job(task, at + delay, delay))
  {
    var s := Schedule(t, task, delay, at);
    assert s.queue[|t.queue|] == Job(task, at + delay, delay);
  }

  /** `schedule` does not reject a negative delay: such a job already
      started in the past, and the next step of a running trigger with a
      clock no earlier than the call polls a job. */
  lemma NegativeDelayIsDueAtOnce(t: Trigger, task: Task, delay: int, at: int, now: int, later: int)
    requires t.alive
    requires delay < 0
    requires at <= now
    ensures Job(task, at + delay, delay).startTime < at
    ensures var r := Step(Schedule(t, task, delay, at), now, later);
            r.outcome.Dispatched? || r.outcome.Crashed?
  {
    var s := Schedule(t, task, delay, at);
    assert s.queue[|t.queue|] == Job(task, at + delay, delay);
  }

  /** Something that happens to the service: a caller's `schedule`, or
      one iteration of the trigger loop with its two clock readings. */
  datatype Event =
    | Submit(task: Task, delay: int, at: int)
    | Tick(now: int, later: int)

  function Apply(t: Trigger, e: Event): Trigger {
    match e
    case Submit(task, delay, at) => Schedule(t, task, delay, at)
    case Tick(now, later) => Step(t, now, later).trigger
  }

  /** The (task, delay) pairs of the submissions in `events`. */
  function Submitted(events: seq<Event>): (m: multiset<(Task, int)>)
  {
    if |events| == 0 then multiset{}
    else
      (match events[0]
       case Submit(task, delay, _) => multiset{(task, delay)}
       case Tick(_, _) => multiset{})
      + Submitted(events[1..])
  }

  /** Any interleaving of submissions and trigger steps. The dispatch log
      only grows, a stopped trigger never runs again, and the queue neither
      loses nor duplicates a job except the one a crash polls: it holds one
      job per submission on top of what it started with, less one if the
      trigger stopped during the run. */
  function Run(t: Trigger, events: seq<Event>): (r: Trigger)
    ensures t.log <= r.log
    ensures r.alive ==> t.alive
    ensures |r.queue| == |t.queue| + |Submitted(events)| - (if t.alive && !r.alive then 1 else 0)
    decreases |events|
  {
    if |events| == 0 then t
    else Run(Apply(t, events[0]), events[1..])
  }

  /** Over any run, the pending (task, delay) pairs change only through
      `schedule`: trigger steps rewrite start times and nothing else. The
      one exception is a crash, which loses the pair of the null task it
      polled. */
  lemma {:induction false} RunTaskDelays(t: Trigger, events: seq<Event>)
    ensures var r := Run(t, events);
            r.alive == t.alive ==> TaskDelays(r.queue) == TaskDelays(t.queue) + Submitted(events)
    ensures TaskDelays(Run(t, events).queue) <= TaskDelays(t.queue) + Submitted(events)
    ensures forall p :: p in (TaskDelays(t.queue) + Submitted(events)) - TaskDelays(Run(t, events).queue) ==> p.0.Null?
    decreases |events|
  {
    if |events| > 0 {
      var a := Apply(t, events[0]);
      var rest := events[1..];
      assert Submitted(events) == Submitted([events[0]]) + Submitted(rest);
      match events[0] {
        case Submit(task, delay, at) =>
          ScheduleAddsTaskDelay(t, task, delay, at);
        case Tick(now, later) =>
          StepPreservesTaskDelays(t, now, later);
      }
      RunTaskDelays(a, rest);
    }
  }

  /** A stopped trigger dispatches nothing more, whatever is scheduled. */
  lemma {:induction false} StoppedTriggerDispatchesNothing(t: Trigger, events: seq<Event>)
    requires !t.alive
    ensures Run(t, events).log == t.log
    ensures !Run(t, events).alive
    decreases |events|
  {
    if |events| > 0 {
      StoppedTriggerDispatchesNothing(Apply(t, events[0]), events[1..]);
    }
  }

  /** Every pending job has a non-null task. */
  ghost predicate RunnableTasks(q: Queue) {
    forall k :: 0 <= k < |q| ==> q[k].task.Runnable?
  }

  /** Every submission in `events` is of a non-null task. */
  ghost predicate SubmitsRunnable(events: seq<Event>) {
    forall i :: 0 <= i < |events| ==> events[i].Submit? ==> events[i].task.Runnable?
  }

  /** A step never puts a null task on the queue, and with none pending it
      cannot stop the trigger. */
  lemma {:induction false} StepKeepsRunnableTasks(t: Trigger, now: int, later: int)
    requires RunnableTasks(t.queue)
    ensures RunnableTasks(Step(t, now, later).trigger.queue)
    ensures Step(t, now, later).trigger.alive == t.alive
  {
    var r := Step(t, now, later);
    var q' := r.trigger.queue;
    if r.outcome.Dispatched? {
      forall k | 0 <= k < |q'|
        ensures q'[k].task.Runnable?
      {
        assert q'[k] in multiset(q');
        if q'[k] != Next(r.outcome.job, later) {
          assert q'[k] in multiset(t.queue);
        }
      }
    }
  }

  /** A running trigger whose queue holds only non-null tasks, and to which
      only non-null tasks are submitted, never stops. */
  lemma {:induction false} RunnableTasksKeepTriggerAlive(t: Trigger, events: seq<Event>)
    requires t.alive
    requires RunnableTasks(t.queue)
    requires SubmitsRunnable(events)
    ensures Run(t, events).alive
    decreases |events|
  {
    if |events| > 0 {
      var a := Apply(t, events[0]);
      match events[0] {
        case Submit(task, delay, at) =>
          assert events[0].task.Runnable?;
          forall k | 0 <= k < |a.queue|
            ensures a.queue[k].task.Runnable?
          {
            assert a.queue == t.queue + [Job(task, at + delay, delay)];
          }
        case Tick(now, later) =>
          StepKeepsRunnableTasks(t, now, later);
      }
      assert SubmitsRunnable(events[1..]) by {
        forall i | 0 <= i < |events[1..]| && events[1..][i].Submit?
          ensures events[1..][i].task.Runnable?
        {
          assert events[1..][i] == events[i + 1];
        }
      }
      RunnableTasksKeepTriggerAlive(a, events[1..]);
    }
  }
}

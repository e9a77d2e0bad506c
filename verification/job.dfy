/** A schedulable unit of work: the task to run, the absolute time (ms) at
    which it next becomes due, and the interval (ms) between runs.
    Jobs are ordered by start time alone; that order is what makes the
    trigger's queue a min-priority queue. */
module Jobs {

  /** A task reference: either null, or a runnable that is opaque to the
      scheduler and known only by its identity. */
  datatype Task = Null | Runnable(id: int)

  /** The constructor stores its three arguments; the field selectors
      `task`, `startTime` and `delay` are the getters. */
  datatype Job = Job(task: Task, startTime: int, delay: int)

  /** Replaces the start time and nothing else. */
  function SetStartTime(j: Job, startTime: int): (r: Job)
    ensures r.startTime == startTime
    ensures r.task == j.task && r.delay == j.delay
  {
    j.(startTime := startTime)
  }

  /** Replaces the task and nothing else. */
  function SetTask(j: Job, task: Task): (r: Job)
    ensures r.task == task
    ensures r.startTime == j.startTime && r.delay == j.delay
  {
    j.(task := task)
  }

  /** Replaces the delay and nothing else. */
  function SetDelay(j: Job, delay: int): (r: Job)
    ensures r.delay == delay
    ensures r.task == j.task && r.startTime == j.startTime
  {
    j.(delay := delay)
  }

  /** The natural order of jobs, as `Long.compare` on the start times:
      -1, 0 or 1 as `a` starts before, together with, or after `b`. */
  function CompareTo(a: Job, b: Job): (r: int)
    ensures r == -1 || r == 0 || r == 1
    ensures r < 0 <==> a.startTime < b.startTime
    ensures r == 0 <==> a.startTime == b.startTime
    ensures r > 0 <==> a.startTime > b.startTime
  {
    if a.startTime < b.startTime then -1
    else if a.startTime == b.startTime then 0
    else 1
  }

  /** `a` may come out of the queue no later than `b`. */
  predicate NoLaterThan(a: Job, b: Job) {
    CompareTo(a, b) <= 0
  }

  ghost predicate Reflexive(rel: (Job, Job) -> bool) {
    forall x :: rel(x, x)
  }

  ghost predicate Transitive(rel: (Job, Job) -> bool) {
    forall x, y, z :: rel(x, y) && rel(y, z) ==> rel(x, z)
  }

  ghost predicate StronglyConnected(rel: (Job, Job) -> bool) {
    forall x, y :: rel(x, y) || rel(y, x)
  }

  ghost predicate TotalPreorder(rel: (Job, Job) -> bool) {
    Reflexive(rel) && Transitive(rel) && StronglyConnected(rel)
  }

  /** A constructed job hands back exactly what it was built from; setting
      a field to its current value changes nothing; and of two writes to
      the same field, the last one wins. */
  lemma ConstructAndSetRoundTrip(task: Task, startTime: int, delay: int, j: Job, task': Task, startTime': int, delay': int)
    ensures Job(task, startTime, delay).task == task
    ensures Job(task, startTime, delay).startTime == startTime
    ensures Job(task, startTime, delay).delay == delay
    ensures SetStartTime(j, j.startTime) == j
    ensures SetTask(j, j.task) == j
    ensures SetDelay(j, j.delay) == j
    ensures SetStartTime(SetStartTime(j, startTime), startTime') == SetStartTime(j, startTime')
    ensures SetTask(SetTask(j, task), task') == SetTask(j, task')
    ensures SetDelay(SetDelay(j, delay), delay') == SetDelay(j, delay')
  {
  }

  /** Task and delay play no part in the order: jobs that start together
      compare as equal, and compare alike with every third job. */
  lemma CompareIgnoresTaskAndDelay(a: Job, b: Job, c: Job)
    requires a.startTime == b.startTime
    ensures CompareTo(a, b) == 0
    ensures CompareTo(a, c) == CompareTo(b, c)
    ensures CompareTo(c, a) == CompareTo(c, b)
  {
  }

  /** Swapping the arguments negates the result. */
  lemma CompareAntisymmetric(a: Job, b: Job)
    ensures CompareTo(a, b) == -CompareTo(b, a)
  {
  }

  /** Both the strict and the non-strict order are transitive. */
  lemma CompareTransitive(a: Job, b: Job, c: Job)
    ensures CompareTo(a, b) <= 0 && CompareTo(b, c) <= 0 ==> CompareTo(a, c) <= 0
    ensures CompareTo(a, b) < 0 && CompareTo(b, c) < 0 ==> CompareTo(a, c) < 0
    ensures CompareTo(a, b) == 0 && CompareTo(b, c) == 0 ==> CompareTo(a, c) == 0
  {
  }

  /** The order is a total preorder, as a priority queue needs it to be. */
  lemma OrderIsTotalPreorder()
    ensures TotalPreorder(NoLaterThan)
  {
  }
}

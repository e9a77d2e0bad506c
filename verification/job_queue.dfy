/** The trigger's priority queue of pending jobs. A queue is a sequence
    whose order carries no meaning; only its multiset of jobs does. `Peek`
    and `Poll` hand out a job of least start time. Among jobs that start
    together the choice is unspecified: the contracts here only ever say
    "a minimal job". */
module JobQueue {
  import opened Jobs

  datatype Option<T> = None | Some(value: T)

  type Queue = seq<Job>

  /** Position `i` holds a job that no other pending job starts before. */
  ghost predicate IsMinAt(q: Queue, i: int) {
    0 <= i < |q| && forall k :: 0 <= k < |q| ==> q[i].startTime <= q[k].startTime
  }

  /** `j` is pending and no pending job starts before it. */
  ghost predicate IsMin(q: Queue, j: Job) {
    j in q && forall k :: k in q ==> j.startTime <= k.startTime
  }

  /** Inserts a job; every pending job stays pending. */
  function Offer(q: Queue, j: Job): (r: Queue)
    ensures |r| == |q| + 1
    ensures multiset(r) == multiset(q) + multiset{j}
  {
    q + [j]
  }

  /** The position of some job of least start time. */
  function MinIndex(q: Queue): (i: nat)
    requires |q| > 0
    ensures IsMinAt(q, i)
    decreases |q|
  {
    if |q| == 1 then 0
    else
      var k := MinIndex(q[1..]) + 1;
      if q[0].startTime <= q[k].startTime then 0 else k
  }

  /** The least start time of a non-empty queue: it is some pending job's
      start time, and no pending job starts earlier. */
  function MinStart(q: Queue): (t: int)
    requires |q| > 0
    ensures exists k :: 0 <= k < |q| && q[k].startTime == t
    ensures forall k :: 0 <= k < |q| ==> t <= q[k].startTime
  {
    var i := MinIndex(q);
    assert IsMinAt(q, i);
    q[i].startTime
  }

  /** The queue without the job at position `i`. */
  function RemoveAt(q: Queue, i: nat): (r: Queue)
    requires i < |q|
    ensures |r| == |q| - 1
    ensures multiset(r) == multiset(q) - multiset{q[i]}
  {
    assert q == q[..i] + [q[i]] + q[i + 1..];
    q[..i] + q[i + 1..]
  }

  /** Looks at a job of least start time without removing it; `None` on
      an empty queue. */
  function Peek(q: Queue): (r: Option<Job>)
    ensures r.None? <==> |q| == 0
    ensures r.Some? ==> IsMin(q, r.value)
  {
    if |q| == 0 then None
    else
      var i := MinIndex(q);
      assert IsMinAt(q, i);
      Some(q[i])
  }

  /** Removes and returns a job of least start time; an empty queue is
      left as it is. */
  function Poll(q: Queue): (r: (Option<Job>, Queue))
    ensures r.0.None? <==> |q| == 0
    ensures r.0.None? ==> r.1 == q
    ensures r.0.Some? ==> IsMin(q, r.0.value)
    ensures r.0.Some? ==> multiset(r.1) + multiset{r.0.value} == multiset(q)
    ensures r.0.Some? ==> |r.1| == |q| - 1
  {
    if |q| == 0 then (None, q)
    else
      var i := MinIndex(q);
      assert IsMinAt(q, i);
      (Some(q[i]), RemoveAt(q, i))
  }

  /** With no mutation in between, `Poll` removes the very job `Peek`
      showed. */
  lemma PollAgreesWithPeek(q: Queue)
    ensures Poll(q).0 == Peek(q)
  {
  }

  /** A job offered to a queue in which it starts strictly before every
      pending job is the one `Poll` removes next, leaving the old queue's
      jobs behind. */
  lemma PollAfterEarliestOffer(q: Queue, j: Job)
    requires forall k :: 0 <= k < |q| ==> j.startTime < q[k].startTime
    ensures Poll(Offer(q, j)).0 == Some(j)
    ensures multiset(Poll(Offer(q, j)).1) == multiset(q)
  {
    assert j in Offer(q, j);
  }

  /** The (task, delay) pairs of the pending jobs, counted with
      multiplicity: what stays the same when a job is rescheduled. */
  function TaskDelays(q: Queue): multiset<(Task, int)>
  {
    if |q| == 0 then multiset{}
    else multiset{(q[0].task, q[0].delay)} + TaskDelays(q[1..])
  }

  lemma {:induction false} TaskDelaysAppend(a: Queue, b: Queue)
    ensures TaskDelays(a + b) == TaskDelays(a) + TaskDelays(b)
    decreases |a|
  {
    if |a| == 0 {
      assert a + b == b;
    } else {
      assert (a + b)[1..] == a[1..] + b;
      TaskDelaysAppend(a[1..], b);
    }
  }

  /** `TaskDelays` depends only on which jobs are pending, not on the
      order of the sequence. */
  lemma {:induction false} TaskDelaysPermutation(a: Queue, b: Queue)
    requires multiset(a) == multiset(b)
    ensures TaskDelays(a) == TaskDelays(b)
    decreases |a|
  {
    if |a| == 0 {
      assert |b| == |multiset(b)| == 0;
    } else {
      var x := a[0];
      assert x in multiset(b);
      var k :| 0 <= k < |b| && b[k] == x;
      assert a == [x] + a[1..];
      assert multiset(a[1..]) == multiset(a) - multiset{x};
      TaskDelaysPermutation(a[1..], RemoveAt(b, k));
      TaskDelaysRemoveAt(b, k);
    }
  }

  /** Removing the job at position `k` removes exactly its pair. */
  lemma {:induction false} TaskDelaysRemoveAt(b: Queue, k: nat)
    requires k < |b|
    ensures TaskDelays(b) == multiset{(b[k].task, b[k].delay)} + TaskDelays(RemoveAt(b, k))
  {
    var pre, post := b[..k], b[k + 1..];
    var tail := [b[k]] + post;
    assert b == pre + tail;
    TaskDelaysAppend(pre, tail);
    assert tail[1..] == post;
    assert TaskDelays(tail) == multiset{(b[k].task, b[k].delay)} + TaskDelays(post);
    assert RemoveAt(b, k) == pre + post;
    TaskDelaysAppend(pre, post);
  }

  /** Replacing a pending job by one with the same task and delay, in
      whatever order the queue then keeps its jobs, leaves the pending
      (task, delay) pairs as they were. */
  lemma {:induction false} ReplacePreservesTaskDelays(q: Queue, gone: Job, next: Job, q': Queue)
    requires gone in q
    requires next.task == gone.task && next.delay == gone.delay
    requires multiset(q') == multiset(q) - multiset{gone} + multiset{next}
    ensures TaskDelays(q') == TaskDelays(q)
  {
    var k :| 0 <= k < |q| && q[k] == gone;
    var rest := RemoveAt(q, k);
    assert multiset(rest + [next]) == multiset(q');
    TaskDelaysPermutation(q', rest + [next]);
    TaskDelaysAppend(rest, [next]);
    assert TaskDelays([next]) == multiset{(next.task, next.delay)};
    TaskDelaysRemoveAt(q, k);
  }

  /** Removing one pending job, in whatever order the queue then keeps
      its jobs, loses exactly that job's (task, delay) pair. */
  lemma {:induction false} RemoveLosesTaskDelay(q: Queue, gone: Job, q': Queue)
    requires gone in q
    requires multiset(q') == multiset(q) - multiset{gone}
    ensures TaskDelays(q) == TaskDelays(q') + multiset{(gone.task, gone.delay)}
  {
    var k :| 0 <= k < |q| && q[k] == gone;
    TaskDelaysPermutation(q', RemoveAt(q, k));
    TaskDelaysRemoveAt(q, k);
  }
}

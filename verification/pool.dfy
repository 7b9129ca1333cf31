/**
 * The scheduler of `ThreadPool` (thread.cpp) as a sequential transition
 * system. The state is what the mutex guards: the task queue and the
 * `closed` flag, plus the `num_inflight_tasks` counter, the number of
 * workers, and the log of task bodies run so far (`func_range(i)` or
 * `func_single()`), which stands for the effect of running them.
 *
 * A worker step is the locked region of `run_worker` followed by the
 * `run_task` call and the counter update it leads to, taken as one
 * transition. Which worker takes a step does not matter to the state.
 * `submit` is two transitions: the locked append, and the increment of the
 * counter after the unlock, so a worker can pop a task and count it out
 * before its submission has counted it in.
 */
module ThreadPool {
  import opened Bits
  import opened Bytes

  /** The range split ratio: a ranged task is cut into about `workers * 4` pieces. */
  const RangeSplitRatio: nat := 4

  /**
   * A queued task: with `end > 0` a ranged task over the indices
   * `[start, end)`, otherwise a single task. `id` names its body.
   */
  datatype Task = Task(id: nat, start: nat, end: nat)

  /** One call of a task body: `func_range(index)` of a ranged task, or `func_single()`. */
  datatype Run = RangeRun(id: nat, index: nat) | SingleRun(id: nat)

  /**
   * `inflight` is the running sum of the counter's increments and
   * decrements; the `size_t` atomic holds it modulo 2^64. `uncounted` is
   * the number of accepted submissions whose increment has not run yet.
   */
  datatype Pool = Pool(queue: seq<Task>, closed: bool, inflight: int, uncounted: nat, workers: nat, log: seq<Run>)

  predicate WellFormedTask(t: Task)
  {
    t.start <= t.end
  }

  /**
   * Every queued task is well formed, and the counter plus the submissions
   * not yet counted is the number of queued tasks.
   */
  predicate Valid(p: Pool)
  {
    && p.inflight + p.uncounted == |p.queue|
    && forall k :: 0 <= k < |p.queue| ==> WellFormedTask(p.queue[k])
  }

  /** A pool of `workers` threads, possibly none: open, with nothing queued, counted or run. */
  function NewPool(workers: nat): (p: Pool)
    ensures Valid(p) && !p.closed && p.queue == [] && p.log == [] && p.workers == workers
    ensures p.uncounted == 0 && NumInflightTasks(p) == 0
  {
    Pool([], false, 0, 0, workers, [])
  }

  /**
   * `num_inflight_tasks()`: the atomic counter. It is the number of queued
   * tasks less the submissions not yet counted, modulo 2^64, and so the
   * number of queued tasks whenever no submission is between its unlock and
   * its increment.
   */
  function NumInflightTasks(p: Pool): (n: nat)
    requires Valid(p)
    ensures n < SizeLimit
    ensures n == WrapSize(|p.queue| - p.uncounted)
    ensures p.uncounted == 0 && |p.queue| < SizeLimit ==> n == |p.queue|
  {
    WrapSize(p.inflight)
  }

  // ---------------------------------------------------------------------
  // Running and splitting one task
  // ---------------------------------------------------------------------

  /** `run_task`: each index of a ranged task in increasing order, or the single body once. */
  function RunTask(t: Task): (runs: seq<Run>)
    ensures t.end > 0 ==> |runs| == (if t.start <= t.end then t.end - t.start else 0)
    ensures t.end > 0 ==> forall k :: 0 <= k < |runs| ==> runs[k] == RangeRun(t.id, t.start + k)
    ensures t.end == 0 ==> runs == [SingleRun(t.id)]
  {
    if t.end > 0 then
      seq(if t.start <= t.end then t.end - t.start else 0, k requires 0 <= k => RangeRun(t.id, t.start + k))
    else [SingleRun(t.id)]
  }

  /**
   * The number of indices a split hands out: `end / (workers * 4)`, at
   * least one. That is, the largest `c` with `c * workers * 4 <= end`, or 1
   * when there is none.
   */
  function ChunkSize(end: nat, workers: nat): (c: nat)
    requires workers >= 1
    ensures c >= 1
    ensures c == 1 || c * (workers * RangeSplitRatio) <= end
    ensures c == 1 || end < (c + 1) * (workers * RangeSplitRatio)
    ensures c == 1 <==> end < 2 * (workers * RangeSplitRatio)
  {
    var perWorker := end / (workers * RangeSplitRatio);
    DivisionBounds(end, workers * RangeSplitRatio);
    if perWorker == 0 then 1 else perWorker
  }

  /** The quotient is the largest multiple of the divisor not above the dividend. */
  lemma DivisionBounds(n: nat, d: nat)
    requires d >= 1
    ensures (n / d) * d <= n < (n / d + 1) * d
    ensures n / d <= 1 <==> n < 2 * d
  {
    var q := n / d;
    assert n == q * d + n % d;
    assert (q + 1) * d == q * d + d;
    if q >= 2 {
      assert q * d >= 2 * d;
    }
  }

  /**
   * `split_task(from)`: the part to run now and what is left in the queue
   * slot. A ranged task hands out `[start, min(start + chunk, end))` and
   * advances its start; a single task is handed out whole, its slot
   * marked exhausted.
   */
  function SplitTask(from: Task, workers: nat): (r: (Task, Task))
    requires workers >= 1 && WellFormedTask(from)
    ensures var (task, rest) := r;
      && task.id == from.id && rest.id == from.id
      && WellFormedTask(task) && WellFormedTask(rest)
      && rest.end == from.end
      && (from.end > 0 ==>
            && task.start == from.start
            && task.end == rest.start
            && task.end == (if from.start + ChunkSize(from.end, workers) > from.end then from.end
                            else from.start + ChunkSize(from.end, workers))
            && task.end > 0
            && (from.start < from.end ==> from.start < task.end))
      && (from.end == 0 ==> task == from && rest.start == rest.end)
  {
    if from.end > 0 then
      var perWorker := ChunkSize(from.end, workers);
      var nextStart := if from.start + perWorker > from.end then from.end else from.start + perWorker;
      (from.(end := nextStart), from.(start := nextStart))
    else
      (from, from.(start := from.end))
  }

  /** The indices of two adjacent ranges, run one after the other, are those of their union. */
  lemma RangeRunsConcat(id: nat, a: nat, b: nat, c: nat)
    requires 0 < b && a <= b <= c
    ensures RunTask(Task(id, a, b)) + RunTask(Task(id, b, c)) == RunTask(Task(id, a, c))
  {
    var left, right, whole := RunTask(Task(id, a, b)), RunTask(Task(id, b, c)), RunTask(Task(id, a, c));
    assert |left + right| == |whole|;
    forall k | 0 <= k < |whole|
      ensures (left + right)[k] == whole[k]
    {
      if k >= |left| {
        assert (left + right)[k] == right[k - |left|];
      }
    }
  }

  /**
   * Splitting loses and repeats nothing: for a ranged task, running the
   * part handed out and then what is left runs exactly the original range.
   */
  lemma SplitTaskRuns(from: Task, workers: nat)
    requires workers >= 1 && WellFormedTask(from) && from.end > 0
    ensures var (task, rest) := SplitTask(from, workers);
      RunTask(task) + RunTask(rest) == RunTask(from)
  {
    var (task, rest) := SplitTask(from, workers);
    RangeRunsConcat(from.id, from.start, task.end, from.end);
  }

  // ---------------------------------------------------------------------
  // Repeated splitting of one ranged task
  // ---------------------------------------------------------------------

  /** The pieces a ranged task is handed out in, by splitting it until it is exhausted. */
  function Chunks(t: Task, workers: nat): (cs: seq<Task>)
    requires workers >= 1 && WellFormedTask(t) && t.end > 0
    decreases t.end - t.start
  {
    if t.start == t.end then []
    else
      var (chunk, rest) := SplitTask(t, workers);
      [chunk] + Chunks(rest, workers)
  }

  /**
   * The pieces of a ranged task are non-empty, consecutive and cover
   * `[start, end)`: the first starts at `start`, each ends where the next
   * starts, the last ends at `end`. There are at most `end - start` of
   * them, and all but the last have `ChunkSize` indices.
   */
  lemma {:induction false} ChunksPartition(t: Task, workers: nat)
    requires workers >= 1 && WellFormedTask(t) && t.end > 0
    ensures var cs := Chunks(t, workers);
      && |cs| <= t.end - t.start
      && (t.start == t.end <==> cs == [])
      && (forall k :: 0 <= k < |cs| ==> cs[k].id == t.id && cs[k].start < cs[k].end <= t.end)
      && (forall k :: 0 <= k < |cs| - 1 ==> cs[k].end == cs[k + 1].start)
      && (forall k :: 0 <= k < |cs| - 1 ==> cs[k].end - cs[k].start == ChunkSize(t.end, workers))
      && (cs != [] ==> cs[0].start == t.start && cs[|cs| - 1].end == t.end)
    decreases t.end - t.start
  {
    if t.start < t.end {
      var (chunk, rest) := SplitTask(t, workers);
      ChunksPartition(rest, workers);
      var tail := Chunks(rest, workers);
      var cs := [chunk] + tail;
      assert Chunks(t, workers) == cs;
      forall k | 0 <= k < |cs|
        ensures cs[k].id == t.id && cs[k].start < cs[k].end <= t.end
      {
        if k > 0 { assert cs[k] == tail[k - 1]; }
      }
      forall k | 0 <= k < |cs| - 1
        ensures cs[k].end == cs[k + 1].start
        ensures cs[k].end - cs[k].start == ChunkSize(t.end, workers)
      {
        if k > 0 { assert cs[k] == tail[k - 1] && cs[k + 1] == tail[k]; }
      }
      if tail != [] {
        assert cs[|cs| - 1] == tail[|tail| - 1];
      }
    }
  }

  /** Concatenated runs of a sequence of tasks, in order. */
  function RunAll(ts: seq<Task>): seq<Run>
  {
    if ts == [] then [] else RunTask(ts[0]) + RunAll(ts[1..])
  }

  /** Running the pieces one after the other runs every index of the task exactly once, in order. */
  lemma {:induction false} ChunksRunTask(t: Task, workers: nat)
    requires workers >= 1 && WellFormedTask(t) && t.end > 0
    ensures RunAll(Chunks(t, workers)) == RunTask(t)
    decreases t.end - t.start
  {
    if t.start < t.end {
      var (chunk, rest) := SplitTask(t, workers);
      ChunksRunTask(rest, workers);
      SplitTaskRuns(t, workers);
      var cs := [chunk] + Chunks(rest, workers);
      assert Chunks(t, workers) == cs && cs[0] == chunk && cs[1..] == Chunks(rest, workers);
    }
  }

  // ---------------------------------------------------------------------
  // Transitions
  // ---------------------------------------------------------------------

  /**
   * The locked region of `submit(task)`: false with nothing changed once
   * closed; otherwise the task goes to the back of the queue. The counter
   * is incremented after the unlock, by `CountSubmission`.
   */
  function Submit(p: Pool, t: Task): (r: (bool, Pool))
    requires Valid(p) && WellFormedTask(t)
    ensures r.0 <==> !p.closed
    ensures !r.0 ==> r.1 == p
    ensures r.0 ==> r.1 == p.(queue := p.queue + [t], uncounted := p.uncounted + 1)
    ensures Valid(r.1)
  {
    if p.closed then (false, p)
    else (true, p.(queue := p.queue + [t], uncounted := p.uncounted + 1))
  }

  /** `num_inflight_tasks.fetch_add(1)` after `submit` has released the lock. */
  function CountSubmission(p: Pool): (p': Pool)
    requires Valid(p) && p.uncounted > 0
    ensures Valid(p') && p'.queue == p.queue && p'.closed == p.closed && p'.log == p.log && p'.workers == p.workers
    ensures p'.inflight == p.inflight + 1 && p'.uncounted == p.uncounted - 1
  {
    p.(inflight := p.inflight + 1, uncounted := p.uncounted - 1)
  }

  /**
   * A whole `submit` call, the locked append followed by the increment:
   * accepted exactly when open, and then the task is queued and counted.
   */
  function SubmitCall(p: Pool, t: Task): (r: (bool, Pool))
    requires Valid(p) && WellFormedTask(t)
    ensures r.0 <==> !p.closed
    ensures !r.0 ==> r.1 == p
    ensures r.0 ==> r.1 == p.(queue := p.queue + [t], inflight := p.inflight + 1)
    ensures Valid(r.1)
  {
    var (ok, p1) := Submit(p, t);
    (ok, if ok then CountSubmission(p1) else p1)
  }

  /** What a worker does next: wait for work, exit, or take and run a piece of the front task. */
  datatype WorkerOutcome = Waits | Exits | Ran(task: Task, popped: bool, pool: Pool)

  /** The total work left: one per queued task plus one per index of a ranged task left to hand out. */
  function Work(t: Task): nat
  {
    (if t.end > 0 && t.start <= t.end then t.end - t.start else 0) + 1
  }

  function WorkAll(ts: seq<Task>): nat
  {
    if ts == [] then 0 else Work(ts[0]) + WorkAll(ts[1..])
  }

  /**
   * One pass of `run_worker`'s loop: with an empty queue, wait while open
   * and exit once closed; otherwise split the front task, pop it exactly
   * when it is exhausted (`start == end`), run the piece, and count the
   * popped task out of the in-flight counter.
   */
  function WorkerStep(p: Pool): (r: WorkerOutcome)
    requires Valid(p) && p.workers >= 1
    ensures r.Waits? <==> p.queue == [] && !p.closed
    ensures r.Exits? <==> p.queue == [] && p.closed
    ensures r.Ran? ==> Valid(r.pool) && r.pool.closed == p.closed && r.pool.workers == p.workers
    ensures r.Ran? ==> r.pool.uncounted == p.uncounted
    ensures r.Ran? ==> r.pool.inflight == if r.popped then p.inflight - 1 else p.inflight
    ensures r.Ran? ==> r.pool.log == p.log + RunTask(r.task)
    ensures r.Ran? ==> (r.popped <==> |r.pool.queue| < |p.queue|)
    ensures r.Ran? ==> var (piece, rest) := SplitTask(p.queue[0], p.workers);
      && r.task == piece
      && (r.popped <==> rest.start == rest.end)
      && r.pool.queue == (if r.popped then p.queue[1..] else [rest] + p.queue[1..])
  {
    if p.queue == [] then (if p.closed then Exits else Waits)
    else
      var (task, rest) := SplitTask(p.queue[0], p.workers);
      var popped := rest.end == rest.start;
      var queue := if popped then p.queue[1..] else [rest] + p.queue[1..];
      var inflight := if popped then p.inflight - 1 else p.inflight;
      assert forall k :: 1 <= k < |p.queue| ==> p.queue[1..][k - 1] == p.queue[k];
      Ran(task, popped, p.(queue := queue, inflight := inflight, log := p.log + RunTask(task)))
  }

  /** The runs still owed to the tasks in the queue. */
  function Pending(queue: seq<Task>): seq<Run>
  {
    RunAll(queue)
  }

  /**
   * A worker step moves work from the queue to the log without losing or
   * repeating any: the log followed by the runs still owed is unchanged.
   * It also strictly reduces the work left.
   */
  lemma WorkerStepConserves(p: Pool)
    requires Valid(p) && p.workers >= 1 && p.queue != []
    ensures var r := WorkerStep(p);
      && r.pool.log + Pending(r.pool.queue) == p.log + Pending(p.queue)
      && WorkAll(r.pool.queue) < WorkAll(p.queue)
  {
    var front := p.queue[0];
    var (task, rest) := SplitTask(front, p.workers);
    var r := WorkerStep(p);
    assert Pending(p.queue) == RunTask(front) + Pending(p.queue[1..]);
    assert WorkAll(p.queue) == Work(front) + WorkAll(p.queue[1..]);
    if front.end > 0 {
      SplitTaskRuns(front, p.workers);
    }
    if rest.end == rest.start {
      assert r.pool.queue == p.queue[1..];
      if front.end > 0 {
        assert RunTask(rest) == [];
      }
      assert RunTask(task) == RunTask(front);
    } else {
      assert r.pool.queue == [rest] + p.queue[1..];
      assert Pending(r.pool.queue) == RunTask(rest) + Pending(p.queue[1..]) by {
        assert r.pool.queue[1..] == p.queue[1..];
      }
      assert WorkAll(r.pool.queue) == Work(rest) + WorkAll(p.queue[1..]) by {
        assert r.pool.queue[1..] == p.queue[1..];
      }
      assert (p.log + RunTask(task)) + (RunTask(rest) + Pending(p.queue[1..]))
          == p.log + ((RunTask(task) + RunTask(rest)) + Pending(p.queue[1..]));
    }
  }

  /**
   * The workers of a closed pool, stepping until each one exits: every
   * step takes work off the queue, so this ends with the queue empty.
   */
  function Drain(p: Pool): (p': Pool)
    requires Valid(p) && p.closed && p.workers >= 1
    ensures Valid(p') && p'.closed && p'.queue == [] && p'.workers == p.workers
    ensures p'.uncounted == p.uncounted
    decreases WorkAll(p.queue)
  {
    match WorkerStep(p)
    case Ran(_, _, p1) => WorkerStepConserves(p); Drain(p1)
    case _ => p
  }

  /** Draining runs exactly the runs owed to the queued tasks, in queue order, after what had run. */
  lemma {:induction false} DrainRunsEverything(p: Pool)
    requires Valid(p) && p.closed && p.workers >= 1
    ensures Drain(p).log == p.log + Pending(p.queue)
    decreases WorkAll(p.queue)
  {
    if p.queue != [] {
      var p1 := WorkerStep(p).pool;
      WorkerStepConserves(p);
      DrainRunsEverything(p1);
      assert Drain(p) == Drain(p1);
      assert Drain(p1).log == p1.log + Pending(p1.queue);
      assert Pending(Drain(p1).queue) == [];
      assert (p1.log + Pending(p1.queue)) == p.log + Pending(p.queue);
    }
  }

  /**
   * `shutdown()`: a no-op once closed; otherwise close the pool and join
   * the workers, which exit only when the queue is empty, so every queued
   * task has run when it returns. A pool without workers has nobody to
   * join: it is closed with its tasks still queued and never run.
   */
  function Shutdown(p: Pool): (p': Pool)
    requires Valid(p)
    ensures Valid(p') && p'.closed && p'.workers == p.workers
    ensures p.closed ==> p' == p
    ensures !p.closed && p.workers >= 1 ==> p'.queue == [] && NumInflightTasks(p') == WrapSize(-(p.uncounted as int))
    ensures !p.closed && p.workers >= 1 && p.uncounted == 0 ==> NumInflightTasks(p') == 0
    ensures p.workers == 0 ==> p'.queue == p.queue && p'.log == p.log
  {
    if p.closed then p
    else if p.workers == 0 then p.(closed := true)
    else Drain(p.(closed := true))
  }

  /** Shutting down an open pool runs everything it had queued, in order. */
  lemma ShutdownRunsEverything(p: Pool)
    requires Valid(p) && !p.closed && p.workers >= 1
    ensures Shutdown(p).log == p.log + Pending(p.queue)
  {
    DrainRunsEverything(p.(closed := true));
  }

  /** A second `shutdown()` changes nothing. */
  lemma ShutdownIdempotent(p: Pool)
    requires Valid(p)
    ensures Shutdown(Shutdown(p)) == Shutdown(p)
  {
  }

  /** Submit the tasks one after the other, recording whether each was accepted. */
  function SubmitAll(p: Pool, ts: seq<Task>): (r: (seq<bool>, Pool))
    requires Valid(p) && forall k :: 0 <= k < |ts| ==> WellFormedTask(ts[k])
    ensures Valid(r.1) && |r.0| == |ts|
    decreases |ts|
  {
    if ts == [] then ([], p)
    else
      var (ok, p1) := SubmitCall(p, ts[0]);
      var (oks, p') := SubmitAll(p1, ts[1..]);
      ([ok] + oks, p')
  }

  /** Submitting to an open pool accepts every task and queues them in order. */
  lemma {:induction false} SubmitAllOpen(p: Pool, ts: seq<Task>)
    requires Valid(p) && !p.closed && forall k :: 0 <= k < |ts| ==> WellFormedTask(ts[k])
    ensures var (oks, p') := SubmitAll(p, ts);
      && (forall k :: 0 <= k < |ts| ==> oks[k])
      && p' == p.(queue := p.queue + ts, inflight := p.inflight + |ts|)
    decreases |ts|
  {
    if ts != [] {
      var (ok, p1) := SubmitCall(p, ts[0]);
      SubmitAllOpen(p1, ts[1..]);
      var (oks, p') := SubmitAll(p1, ts[1..]);
      assert (p.queue + [ts[0]]) + ts[1..] == p.queue + ts;
      forall k | 0 <= k < |ts|
        ensures ([ok] + oks)[k]
      {
        if k > 0 { assert ([ok] + oks)[k] == oks[k - 1]; }
      }
    }
  }

  /**
   * The pool's guarantee: tasks submitted to a fresh pool and then shut
   * down have all run, each ranged task's indices exactly once each and in
   * order, in submission order.
   */
  lemma EverySubmittedTaskRuns(workers: nat, ts: seq<Task>)
    requires workers >= 1 && forall k :: 0 <= k < |ts| ==> WellFormedTask(ts[k])
    ensures var (oks, p) := SubmitAll(NewPool(workers), ts);
      Shutdown(p).log == RunAll(ts) && Shutdown(p).queue == []
  {
    SubmittedToNewPool(workers, ts);
    ShutdownRunsEverything(Pool(ts, false, |ts|, 0, workers, []));
  }

  /** A new pool, after the submissions, holds exactly the submitted tasks, all counted. */
  lemma SubmittedToNewPool(workers: nat, ts: seq<Task>)
    requires forall k :: 0 <= k < |ts| ==> WellFormedTask(ts[k])
    ensures SubmitAll(NewPool(workers), ts).1 == Pool(ts, false, |ts|, 0, workers, [])
  {
    SubmitAllOpen(NewPool(workers), ts);
    assert [] + ts == ts;
  }

  /**
   * A pool with no threads, as `ThreadPool(name, 0)` creates, accepts every
   * submission while open, but its shutdown returns with every task still
   * queued and none of them run.
   */
  lemma ZeroWorkersRunNothing(p: Pool, ts: seq<Task>)
    requires Valid(p) && !p.closed && p.workers == 0
    requires forall k :: 0 <= k < |ts| ==> WellFormedTask(ts[k])
    ensures var (oks, p') := SubmitAll(p, ts);
      && (forall k :: 0 <= k < |ts| ==> oks[k])
      && Shutdown(p').queue == p.queue + ts && Shutdown(p').log == p.log
  {
    SubmitAllOpen(p, ts);
  }

  /**
   * The window between `submit`'s unlock and its increment: on an idle
   * pool, a worker that pops and runs a single task in it counts the task
   * out first, so `num_inflight_tasks()` reads 2^64 - 1 until the increment
   * lands.
   */
  lemma InflightLagExample(p: Pool, t: Task)
    requires Valid(p) && !p.closed && p.workers >= 1 && p.queue == [] && p.uncounted == 0
    requires t.start == 0 && t.end == 0
    ensures Submit(p, t).0
    ensures var r := WorkerStep(Submit(p, t).1);
      && r.Ran? && r.popped && r.pool.queue == [] && r.pool.log == p.log + [SingleRun(t.id)]
      && NumInflightTasks(r.pool) == SizeLimit - 1
      && NumInflightTasks(CountSubmission(r.pool)) == 0
  {
    var p1 := Submit(p, t).1;
    assert p1.queue == [t] && p1.inflight == 0;
    var r := WorkerStep(p1);
    assert r.pool.inflight == -1;
    WrapSmall(-1);
  }

  /** After shutdown, no submission is accepted. */
  lemma SubmitAfterShutdown(p: Pool, t: Task)
    requires Valid(p) && WellFormedTask(t)
    ensures Submit(Shutdown(p), t) == (false, Shutdown(p))
  {
  }

  // ---------------------------------------------------------------------
  // Thread-local context
  // ---------------------------------------------------------------------

  /** A pool object, by identity. */
  datatype PoolRef = PoolRef(name: nat)

  /** The thread-local pair (`tl_worker_pool`, `tl_worker_idx`) of one thread. */
  datatype ThreadContext = ThreadContext(pool: Option<PoolRef>, idx: nat)

  /** Any thread that is not a pool worker: null pool, index zero. */
  const OutsideContext := ThreadContext(None, 0)

  /** What `init` sets in worker `idx` of `pool` before it runs its loop. */
  function WorkerContext(pool: PoolRef, idx: nat): (ctx: ThreadContext)
    ensures ctx.pool == Some(pool)
  {
    ThreadContext(Some(pool), idx)
  }

  /** `local_thread_pool()`: the pool the calling thread works for, if any. */
  function LocalThreadPool(ctx: ThreadContext): (r: Option<PoolRef>)
    ensures r == ctx.pool
  {
    ctx.pool
  }

  /** `thread_pool()`: the caller's own pool inside a worker, the global pool elsewhere. */
  function CurrentThreadPool(ctx: ThreadContext, global: PoolRef): (r: PoolRef)
    ensures IsThreadPoolWorker(ctx) ==> Some(r) == LocalThreadPool(ctx)
    ensures !IsThreadPoolWorker(ctx) ==> r == global
  {
    if ctx.pool.Some? then ctx.pool.value else global
  }

  /**
   * Inside worker `idx` of `pool`, `thread_pool()` is that pool whatever the
   * global pool is; on any thread outside a pool it is the global pool.
   */
  lemma CurrentThreadPoolContexts(pool: PoolRef, idx: nat, global: PoolRef, other: PoolRef)
    ensures CurrentThreadPool(WorkerContext(pool, idx), global) == pool
    ensures CurrentThreadPool(WorkerContext(pool, idx), global) == CurrentThreadPool(WorkerContext(pool, idx), other)
    ensures CurrentThreadPool(OutsideContext, global) == global
  {
  }

  /** `local_thread_pool_worker_id()`: 0 outside a worker, else the worker index plus one. */
  function WorkerId(ctx: ThreadContext): (id: nat)
    ensures id == 0 <==> ctx.pool.None?
    ensures ctx.pool.Some? ==> id == ctx.idx + 1
  {
    if ctx.pool.None? then 0 else ctx.idx + 1
  }

  /** `is_thread_pool_worker()`: the calling thread belongs to a pool. */
  function IsThreadPoolWorker(ctx: ThreadContext): (b: bool)
    ensures b <==> LocalThreadPool(ctx).Some?
  {
    ctx.pool != None
  }

  /**
   * The workers of a pool of `n` threads have the ids `1..n`, one each, and
   * none of them shares the id 0 of a thread outside any pool.
   */
  lemma WorkerIds(pool: PoolRef, n: nat)
    ensures forall idx :: 0 <= idx < n ==> 1 <= WorkerId(WorkerContext(pool, idx)) <= n
    ensures forall i, j :: 0 <= i < n && 0 <= j < n && WorkerId(WorkerContext(pool, i)) == WorkerId(WorkerContext(pool, j)) ==> i == j
    ensures WorkerId(OutsideContext) == 0 && !IsThreadPoolWorker(OutsideContext)
    ensures forall idx :: 0 <= idx < n ==> IsThreadPoolWorker(WorkerContext(pool, idx))
  {
  }

  /** The test's observations: 0 and no pool on the main thread, 1 in the only worker of a pool. */
  lemma WorkerIdExample(pool: PoolRef)
    ensures WorkerId(OutsideContext) == 0 && LocalThreadPool(OutsideContext) == None
    ensures WorkerId(WorkerContext(pool, 0)) == 1 && LocalThreadPool(WorkerContext(pool, 0)) == Some(pool)
  {
  }
}

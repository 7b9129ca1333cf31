/**
 * `submit_parallel_map` (thread.h): cut `[0, n)` into chunks, submit one
 * pool task per chunk that writes `output[idx] = f(input[idx])` over the
 * chunk and then decrements a `CountingFuture` created with the number of
 * tasks. The model states the partition, the future's count, and what the
 * output holds once every task has run, in whatever order the pool
 * completes them.
 */
module ParallelMap {
  import opened Bits
  import CF = CountingFuture

  /** The number of tasks per pool thread. */
  const TasksPerThread: nat := 4

  /** The index range `[from, to)` of one submitted task. */
  datatype Chunk = Chunk(from: nat, to: nat)

  /** `num_tasks`: the quotient `n / perTask` rounded up, as `(n + perTask - 1) / perTask`. */
  function NumTasks(n: nat, perTask: nat): (q: nat)
    requires perTask >= 1
    ensures q * perTask >= n
    ensures q > 0 ==> (q - 1) * perTask < n
  {
    CeilDiv(n, perTask);
    (n + perTask - 1) / perTask
  }

  lemma CeilDiv(n: nat, p: nat)
    requires p >= 1
    ensures var q := (n + p - 1) / p; q * p >= n && (q > 0 ==> (q - 1) * p < n)
  {
    var q, r := (n + p - 1) / p, (n + p - 1) % p;
    assert n + p - 1 == q * p + r && 0 <= r < p;
    if q > 0 {
      assert (q - 1) * p == q * p - p;
    }
  }

  /**
   * The chunks of the loop at thread.h:168-173: task `i` covers
   * `[i * perTask, i * perTask + perTask)`, except the last, which ends at `n`.
   */
  function Partition(n: nat, perTask: nat): (cs: seq<Chunk>)
    requires perTask >= 1
    ensures |cs| == NumTasks(n, perTask)
  {
    var numTasks := NumTasks(n, perTask);
    seq(numTasks, i requires 0 <= i < numTasks =>
      Chunk(i * perTask, if i == numTasks - 1 then n else i * perTask + perTask))
  }

  /** `chunks` are non-empty, consecutive, and run from `a` up to `n`. */
  predicate Covers(chunks: seq<Chunk>, a: nat, n: nat)
    decreases |chunks|
  {
    if chunks == [] then a == n
    else chunks[0].from == a && a < chunks[0].to && Covers(chunks[1..], chunks[0].to, n)
  }

  /** The chunks from task `i` on cover `[i * perTask, n)`. */
  lemma {:induction false} PartitionCoversFrom(n: nat, perTask: nat, i: nat)
    requires perTask >= 1 && i < NumTasks(n, perTask)
    ensures Covers(Partition(n, perTask)[i..], i * perTask, n)
    decreases NumTasks(n, perTask) - i
  {
    var cs := Partition(n, perTask);
    var q := NumTasks(n, perTask);
    assert cs[i..][0] == cs[i];
    assert cs[i..][1..] == cs[i + 1..];
    if i == q - 1 {
      assert cs[i + 1..] == [];
    } else {
      assert i * perTask + perTask == (i + 1) * perTask;
      assert (i + 1) * perTask <= (q - 1) * perTask by {
        MulMono(i + 1, q - 1, perTask);
      }
      PartitionCoversFrom(n, perTask, i + 1);
    }
  }

  lemma MulMono(a: nat, b: nat, c: nat)
    requires a <= b
    ensures a * c <= b * c
  {
  }

  /** The chunks are disjoint, consecutive, non-empty, and cover exactly `[0, n)`. */
  lemma PartitionCovers(n: nat, perTask: nat)
    requires perTask >= 1
    ensures Covers(Partition(n, perTask), 0, n)
  {
    if NumTasks(n, perTask) > 0 {
      PartitionCoversFrom(n, perTask, 0);
      assert Partition(n, perTask)[0..] == Partition(n, perTask);
    } else {
      assert Partition(n, perTask) == [];
    }
  }

  /** `per_task` as written: `n / (threads * 4)`, zero whenever `n < 4 * threads`. */
  function PerTaskAsWritten(n: nat, threads: nat): nat
    requires threads >= 1
  {
    n / (threads * TasksPerThread)
  }

  /**
   * The tasks submitted as written: none when `per_task` is zero, otherwise
   * the partition.
   */
  function ChunksAsWritten(n: nat, threads: nat): (cs: seq<Chunk>)
    requires threads >= 1
    ensures n >= threads * TasksPerThread ==> Covers(cs, 0, n)
    ensures n < threads * TasksPerThread ==> cs == []
    ensures InBounds(cs, n)
  {
    var perTask := PerTaskAsWritten(n, threads);
    if perTask == 0 then []
    else
      PartitionCovers(n, perTask);
      CoversInBounds(Partition(n, perTask), 0, n);
      Partition(n, perTask)
  }

  /** `per_task` with a floor of one, so that a short input still gets a task. */
  function PerTask(n: nat, threads: nat): (p: nat)
    requires threads >= 1
    ensures p >= 1
    ensures n >= threads * TasksPerThread ==> p == PerTaskAsWritten(n, threads)
  {
    var perTask := n / (threads * TasksPerThread);
    if perTask == 0 then 1 else perTask
  }

  /** The tasks submitted once `per_task` has its floor of one: always the partition of `[0, n)`. */
  function Chunks(n: nat, threads: nat): (cs: seq<Chunk>)
    requires threads >= 1
    ensures Covers(cs, 0, n)
    ensures n >= threads * TasksPerThread ==> cs == ChunksAsWritten(n, threads)
  {
    PartitionCovers(n, PerTask(n, threads));
    Partition(n, PerTask(n, threads))
  }

  // ---------------------------------------------------------------------
  // Running the tasks
  // ---------------------------------------------------------------------

  predicate InBounds(chunks: seq<Chunk>, n: nat)
  {
    forall k :: 0 <= k < |chunks| ==> chunks[k].from <= chunks[k].to <= n
  }

  /** The body of one task: `output[idx] = f(input[idx])` for each index of its chunk. */
  function RunChunk<I, O>(input: seq<I>, output: seq<O>, f: I -> O, c: Chunk): (out: seq<O>)
    requires |input| == |output| && c.from <= c.to <= |input|
    ensures |out| == |output|
    ensures forall i :: 0 <= i < |out| ==> out[i] == if c.from <= i < c.to then f(input[i]) else output[i]
  {
    seq(|output|, i requires 0 <= i < |output| => if c.from <= i < c.to then f(input[i]) else output[i])
  }

  /** The tasks' bodies run one after the other. */
  function RunChunks<I, O>(input: seq<I>, output: seq<O>, f: I -> O, chunks: seq<Chunk>): (out: seq<O>)
    requires |input| == |output| && InBounds(chunks, |input|)
    ensures |out| == |output|
    decreases |chunks|
  {
    if chunks == [] then output
    else RunChunks(input, RunChunk(input, output, f, chunks[0]), f, chunks[1..])
  }

  lemma CoversInBounds(chunks: seq<Chunk>, a: nat, n: nat)
    requires Covers(chunks, a, n)
    ensures a <= n && InBounds(chunks, n)
    decreases |chunks|
  {
    if chunks != [] {
      CoversInBounds(chunks[1..], chunks[0].to, n);
      assert forall k :: 1 <= k < |chunks| ==> chunks[k] == chunks[1..][k - 1];
    }
  }

  /**
   * Running chunks that cover `[a, n)` maps every index in that range and
   * leaves every index below `a` as it was.
   */
  lemma {:induction false} RunCoveringChunks<I, O>(input: seq<I>, output: seq<O>, f: I -> O,
                                                    chunks: seq<Chunk>, a: nat)
    requires |input| == |output| && Covers(chunks, a, |input|)
    ensures InBounds(chunks, |input|)
    ensures var out := RunChunks(input, output, f, chunks);
      forall i :: 0 <= i < |out| ==> out[i] == if a <= i then f(input[i]) else output[i]
    decreases |chunks|
  {
    CoversInBounds(chunks, a, |input|);
    if chunks != [] {
      var mid := RunChunk(input, output, f, chunks[0]);
      RunCoveringChunks(input, mid, f, chunks[1..], chunks[0].to);
    }
  }

  /** Two tasks over disjoint chunks give the same output in either order. */
  lemma RunChunksCommute<I, O>(input: seq<I>, output: seq<O>, f: I -> O, c: Chunk, d: Chunk)
    requires |input| == |output| && c.from <= c.to <= |input| && d.from <= d.to <= |input|
    requires c.to <= d.from || d.to <= c.from
    ensures RunChunk(input, RunChunk(input, output, f, c), f, d)
         == RunChunk(input, RunChunk(input, output, f, d), f, c)
  {
  }

  /** The index `i` lies in one of the chunks. */
  predicate InSomeChunk(chunks: seq<Chunk>, i: nat)
  {
    exists k :: 0 <= k < |chunks| && chunks[k].from <= i < chunks[k].to
  }

  /**
   * The tasks run one after the other in any order, disjoint or not: an
   * index inside some task's chunk ends up holding `f(input[i])`, and every
   * other index keeps its old value.
   */
  lemma {:induction false} RunChunksAnyOrder<I, O>(input: seq<I>, output: seq<O>, f: I -> O, chunks: seq<Chunk>)
    requires |input| == |output| && InBounds(chunks, |input|)
    ensures var out := RunChunks(input, output, f, chunks);
      forall i :: 0 <= i < |out| ==> out[i] == if InSomeChunk(chunks, i) then f(input[i]) else output[i]
    decreases |chunks|
  {
    if chunks != [] {
      var mid := RunChunk(input, output, f, chunks[0]);
      assert forall k :: 0 <= k < |chunks| - 1 ==> chunks[1..][k] == chunks[k + 1];
      RunChunksAnyOrder(input, mid, f, chunks[1..]);
      var out := RunChunks(input, output, f, chunks);
      forall i | 0 <= i < |out|
        ensures out[i] == if InSomeChunk(chunks, i) then f(input[i]) else output[i]
      {
        if InSomeChunk(chunks[1..], i) {
          var k :| 0 <= k < |chunks| - 1 && chunks[1..][k].from <= i < chunks[1..][k].to;
          assert chunks[k + 1] == chunks[1..][k];
        } else if chunks[0].from <= i < chunks[0].to {
          assert InSomeChunk(chunks, i);
        }
      }
    }
  }

  /** Every index of `[a, n)` lies in one of the chunks that cover it. */
  lemma {:induction false} CoversContains(chunks: seq<Chunk>, a: nat, n: nat, i: nat)
    requires Covers(chunks, a, n) && a <= i < n
    ensures InSomeChunk(chunks, i)
    decreases |chunks|
  {
    if i >= chunks[0].to {
      CoversContains(chunks[1..], chunks[0].to, n, i);
      var k :| 0 <= k < |chunks| - 1 && chunks[1..][k].from <= i < chunks[1..][k].to;
      assert chunks[k + 1] == chunks[1..][k];
    } else {
      assert chunks[0].from <= i < chunks[0].to;
    }
  }

  /**
   * The pool may complete the tasks in any order: running any permutation
   * of chunks that cover `[0, n)` leaves `f` applied to each input element.
   */
  lemma PermutedChunksMapEveryElement<I, O>(input: seq<I>, output: seq<O>, f: I -> O,
                                            chunks: seq<Chunk>, order: seq<Chunk>)
    requires |input| == |output| && Covers(chunks, 0, |input|)
    requires multiset(order) == multiset(chunks)
    ensures InBounds(order, |input|)
    ensures RunChunks(input, output, f, order) == MapAll(input, f)
  {
    CoversInBounds(chunks, 0, |input|);
    forall k | 0 <= k < |order|
      ensures order[k].from <= order[k].to <= |input|
    {
      assert order[k] in multiset(chunks);
      var j :| 0 <= j < |chunks| && chunks[j] == order[k];
    }
    forall i | 0 <= i < |input|
      ensures InSomeChunk(order, i)
    {
      CoversContains(chunks, 0, |input|, i);
      var k :| 0 <= k < |chunks| && chunks[k].from <= i < chunks[k].to;
      assert chunks[k] in multiset(order);
      var j :| 0 <= j < |order| && order[j] == chunks[k];
    }
    RunChunksAnyOrder(input, output, f, order);
  }

  /** What the caller gets back: the future and the output once every submitted task has run. */
  datatype Outcome<O> = Outcome(future: CF.Future, output: seq<O>)

  /**
   * `submit_parallel_map(pool, input, output, n, f)` as written, with the
   * pool running every submitted task and each task decrementing the future.
   */
  function ParallelMapAsWritten<I, O>(threads: nat, input: seq<I>, output: seq<O>, f: I -> O): (r: Outcome<O>)
    requires threads >= 1 && |input| == |output| < SizeLimit
    ensures CF.Done(r.future) && |r.output| == |input|
    ensures |input| < threads * TasksPerThread ==> r.output == output
    ensures |input| >= threads * TasksPerThread ==> r.output == MapAll(input, f)
  {
    var chunks := ChunksAsWritten(|input|, threads);
    assert |input| >= threads * TasksPerThread ==> RunChunks(input, output, f, chunks) == MapAll(input, f) by {
      if |input| >= threads * TasksPerThread {
        MapsEveryElement(input, output, f, chunks);
      }
    }
    CoversCountBound(chunks, |input|);
    Outcome(AllDecremented(|chunks|), RunChunks(input, output, f, chunks))
  }

  /** The future for `k` tasks once each of them has decremented it: done. */
  function AllDecremented(k: nat): (f: CF.Future)
    requires k < SizeLimit
    ensures CF.Done(f)
  {
    CF.CountsDownToDone(k, k);
    CF.Decrements(CF.NewFuture(k), k).0
  }

  /** In-bounds non-empty chunks, as the covering ones are, number at most `n`. */
  lemma CoversCountBound(chunks: seq<Chunk>, n: nat)
    requires chunks == [] || Covers(chunks, 0, n)
    ensures |chunks| <= n
  {
    if chunks != [] {
      CoversCount(chunks, 0, n);
    }
  }

  /** `f` applied to each element: the result `submit_parallel_map` promises. */
  function MapAll<I, O>(input: seq<I>, f: I -> O): (out: seq<O>)
    ensures |out| == |input|
    ensures forall i :: 0 <= i < |input| ==> out[i] == f(input[i])
  {
    seq(|input|, i requires 0 <= i < |input| => f(input[i]))
  }

  /**
   * `submit_parallel_map` with `per_task` floored at one: the future starts
   * at the number of tasks, and once they have all run it is done and the
   * output is `f` applied to each input element.
   */
  function ParallelMap<I, O>(threads: nat, input: seq<I>, output: seq<O>, f: I -> O): (r: Outcome<O>)
    requires threads >= 1 && |input| == |output| < SizeLimit
    ensures CF.Done(r.future)
    ensures r.output == MapAll(input, f)
  {
    var chunks := Chunks(|input|, threads);
    MapsEveryElement(input, output, f, chunks);
    CoversCountBound(chunks, |input|);
    Outcome(AllDecremented(|chunks|), RunChunks(input, output, f, chunks))
  }

  /** Running tasks whose chunks cover `[0, n)` leaves `f` applied to each input element, whatever `output` held. */
  lemma MapsEveryElement<I, O>(input: seq<I>, output: seq<O>, f: I -> O, chunks: seq<Chunk>)
    requires |input| == |output| && Covers(chunks, 0, |input|)
    ensures InBounds(chunks, |input|)
    ensures RunChunks(input, output, f, chunks) == MapAll(input, f)
  {
    RunCoveringChunks(input, output, f, chunks, 0);
    var out := RunChunks(input, output, f, chunks);
    var mapped := MapAll(input, f);
    forall i | 0 <= i < |out|
      ensures out[i] == mapped[i]
    {
      assert out[i] == f(input[i]);
    }
  }

  /** The future is created with one count per submitted task, and only the last task's decrement notifies. */
  lemma FutureCountsTasks(n: nat, threads: nat)
    requires threads >= 1 && n < SizeLimit
    ensures var k := |Chunks(n, threads)|;
      && k <= n
      && var (f', notified) := CF.Decrements(CF.NewFuture(k), k);
         CF.Done(f') && forall j :: 0 <= j < k ==> (notified[j] <==> j == k - 1)
  {
    var cs := Chunks(n, threads);
    CoversCount(cs, 0, n);
    CF.CountsDownToDone(|cs|, |cs|);
  }

  /** Non-empty chunks covering `[a, n)` number at most `n - a`. */
  lemma {:induction false} CoversCount(chunks: seq<Chunk>, a: nat, n: nat)
    requires Covers(chunks, a, n)
    ensures a <= n && |chunks| <= n - a
    decreases |chunks|
  {
    if chunks != [] {
      CoversCount(chunks[1..], chunks[0].to, n);
    }
  }

  /**
   * As written, an input shorter than four elements per thread is not
   * processed at all: one element on a one-thread pool submits no task,
   * the future is already done, and the output keeps its old value.
   */
  lemma ShortInputIgnored(f: int -> int)
    requires f(7) != 0
    ensures var r := ParallelMapAsWritten(1, [7], [0], f);
      && ChunksAsWritten(1, 1) == []
      && CF.Remaining(CF.NewFuture(|ChunksAsWritten(1, 1)|)) == 0
      && r.output == [0] && r.output != [f(7)]
  {
  }

  /** The same call with the corrected split writes `f(7)`. */
  lemma ShortInputMapped(f: int -> int)
    ensures ParallelMap(1, [7], [0], f).output == [f(7)]
    ensures |Chunks(1, 1)| == 1
  {
    var cs := Chunks(1, 1);
    CoversCount(cs, 0, 1);
    assert cs != [];
  }

  // ---------------------------------------------------------------------
  // The container overload
  // ---------------------------------------------------------------------

  /** `output.resize(n)`: truncate, or extend with value-initialised elements. */
  function Resize<O>(output: seq<O>, n: nat, blank: O): (r: seq<O>)
    ensures |r| == n
    ensures forall i :: 0 <= i < n ==> r[i] == if i < |output| then output[i] else blank
  {
    if n <= |output| then output[..n] else output + seq(n - |output|, _ => blank)
  }

  /**
   * The container overload: resize `output` to the input's length, then
   * map. The result is the input mapped by `f`, whatever `output` held.
   */
  function ParallelMapContainer<I, O>(threads: nat, input: seq<I>, output: seq<O>, f: I -> O, blank: O): (r: Outcome<O>)
    requires threads >= 1 && |input| < SizeLimit
    ensures CF.Done(r.future)
    ensures |r.output| == |input| && forall i :: 0 <= i < |input| ==> r.output[i] == f(input[i])
  {
    ParallelMap(threads, input, Resize(output, |input|, blank), f)
  }

  /**
   * The container overload as written: resize `output`, then run the
   * pointer overload with its zero chunk size for short input.
   */
  function ParallelMapContainerAsWritten<I, O>(threads: nat, input: seq<I>, output: seq<O>, f: I -> O, blank: O): (r: Outcome<O>)
    requires threads >= 1 && |input| < SizeLimit
    ensures CF.Done(r.future) && |r.output| == |input|
    ensures |input| < threads * TasksPerThread ==> r.output == Resize(output, |input|, blank)
    ensures |input| >= threads * TasksPerThread ==> r.output == MapAll(input, f)
  {
    ParallelMapAsWritten(threads, input, Resize(output, |input|, blank), f)
  }

  /**
   * `start_parsing` maps the one-element vector `{1}` into an empty vector:
   * as written, on a pool of any size, the output is resized to one blank
   * element and never written; with the corrected chunk size it holds `f(1)`.
   */
  lemma ContainerShortInputIgnored(threads: nat, f: int -> real, blank: real)
    requires threads >= 1 && f(1) != blank
    ensures ParallelMapContainerAsWritten(threads, [1], [], f, blank).output == [blank]
    ensures ParallelMapContainerAsWritten(threads, [1], [], f, blank).output != [f(1)]
    ensures ParallelMapContainer(threads, [1], [], f, blank).output == [f(1)]
  {
    assert Resize([], 1, blank) == [blank];
  }
}

/**
 * `MPMCQueue<T>` (sync.h): the ring-buffer `Queue<T>` behind a mutex, a
 * `closed` flag and an atomic `queue_size` counter kept beside it. Each
 * locked region is one transition, and so is each update of the counter
 * made outside the lock: `try_push` appends under the lock and counts the
 * item only after releasing it, so a concurrent `try_pop` can take the
 * item out before it is counted. The effect on the queued items is exactly
 * that of the corresponding closable-queue operation, which is how the
 * FIFO and closing rules carry over.
 */
module Mpmc {
  import opened Bits
  import opened Bytes
  import opened RingQueue
  import CQ = ClosableQueue

  /**
   * `queueSize` is the running sum of the counter's increments and
   * decrements; the `size_t` atomic holds it modulo 2^64. `uncounted` is
   * the number of pushes that have appended their item and released the
   * lock but not yet incremented the counter.
   */
  datatype Mpmc<T> = Mpmc(inner: Queue<T>, closed: bool, queueSize: int, uncounted: nat)

  /** The ring buffer is well formed and the counter plus the pushes not yet counted is its size. */
  predicate Valid<T>(m: Mpmc<T>)
  {
    m.inner.Valid() && m.queueSize + m.uncounted == m.inner.Size()
  }

  /** The queued items, oldest first, and the flag. */
  function Abstract<T>(m: Mpmc<T>): CQ.Closable<T>
    requires m.inner.Valid()
  {
    CQ.Closable(m.inner.Contents(), m.closed)
  }

  /** `MPMCQueue(capacity)`: an open queue over a ring buffer of at least `capacity` slots. */
  function NewMpmc<T>(capacity: nat, blank: T): (m: Mpmc<T>)
    requires capacity <= MaxIntPow2
    ensures Valid(m) && Abstract(m) == CQ.NewQueue() && m.uncounted == 0
    ensures capacity <= m.inner.Capacity()
  {
    var q := New(capacity, blank);
    Mpmc(q, false, 0, 0)
  }

  /** `close()`: set the flag, keep the items. */
  function Close<T>(m: Mpmc<T>): (m': Mpmc<T>)
    requires Valid(m)
    ensures Valid(m') && Abstract(m') == CQ.Close(Abstract(m))
    ensures m'.queueSize == m.queueSize && m'.uncounted == m.uncounted
  {
    m.(closed := true)
  }

  /**
   * The locked region of `try_push(item)`: false with nothing changed once
   * closed, else append. The increment of the counter that follows the
   * unlock is the separate transition `CountPush`.
   */
  function TryPush<T>(m: Mpmc<T>, x: T): (r: (bool, Mpmc<T>))
    requires Valid(m) && m.inner.Size() < MaxCapacity
    ensures Valid(r.1)
    ensures r.0 == CQ.Push(Abstract(m), x).0 && Abstract(r.1) == CQ.Push(Abstract(m), x).1
    ensures r.1.queueSize == m.queueSize
    ensures r.1.uncounted == if r.0 then m.uncounted + 1 else m.uncounted
  {
    if m.closed then (false, m)
    else
      var q := RingQueue.Push(m.inner, x);
      (true, Mpmc(q, m.closed, m.queueSize, m.uncounted + 1))
  }

  /** `queue_size++` after `try_push` has released the lock: the items stay as they are. */
  function CountPush<T>(m: Mpmc<T>): (m': Mpmc<T>)
    requires Valid(m) && m.uncounted > 0
    ensures Valid(m') && Abstract(m') == Abstract(m)
    ensures m'.queueSize == m.queueSize + 1 && m'.uncounted == m.uncounted - 1
  {
    m.(queueSize := m.queueSize + 1, uncounted := m.uncounted - 1)
  }

  /**
   * A whole `try_push` call, the locked append followed by the increment:
   * the closable queue's push, with the counts of other pushes in flight
   * left as they were.
   */
  function TryPushCall<T>(m: Mpmc<T>, x: T): (r: (bool, Mpmc<T>))
    requires Valid(m) && m.inner.Size() < MaxCapacity
    ensures Valid(r.1) && r.1.uncounted == m.uncounted
    ensures r.0 == CQ.Push(Abstract(m), x).0 && Abstract(r.1) == CQ.Push(Abstract(m), x).1
    ensures r.1.queueSize == if r.0 then m.queueSize + 1 else m.queueSize
  {
    var (ok, m1) := TryPush(m, x);
    (ok, if ok then CountPush(m1) else m1)
  }

  /** `push(item)`: as `try_push`, but pushing onto a closed queue aborts the process. */
  function Push<T>(m: Mpmc<T>, x: T): (m': Mpmc<T>)
    requires Valid(m) && m.inner.Size() < MaxCapacity
    requires !m.closed
    ensures Valid(m') && Abstract(m') == CQ.Closable(Abstract(m).items + [x], false)
    ensures m'.queueSize == m.queueSize + 1 && m'.uncounted == m.uncounted
  {
    TryPushCall(m, x).1
  }

  /** `try_pop(dst)`: the front item, removed and counted out under the lock, or false when empty. */
  function TryPop<T>(m: Mpmc<T>): (r: (Option<T>, Mpmc<T>))
    requires Valid(m)
    ensures Valid(r.1) && r.1.uncounted == m.uncounted
    ensures r.0 == CQ.Poll(Abstract(m)).0 && Abstract(r.1) == CQ.Poll(Abstract(m)).1
    ensures r.1.queueSize == if r.0.Some? then m.queueSize - 1 else m.queueSize
  {
    if Empty(m.inner) then (None, m)
    else
      var x := Front(m.inner);
      var q := RingQueue.Pop(m.inner);
      (Some(x), Mpmc(q, m.closed, m.queueSize - 1, m.uncounted))
  }

  /**
   * `pop(dst)`: wait while open and empty, fail once closed and empty,
   * otherwise remove and return the front item.
   */
  function Pop<T>(m: Mpmc<T>): (r: (CQ.PopResult<T>, Mpmc<T>))
    requires Valid(m)
    ensures Valid(r.1) && r.1.uncounted == m.uncounted
    ensures r.0 == CQ.Pop(Abstract(m)).0 && Abstract(r.1) == CQ.Pop(Abstract(m)).1
    ensures r.1.queueSize == if r.0.Popped? then m.queueSize - 1 else m.queueSize
  {
    if !Empty(m.inner) then
      var x := Front(m.inner);
      var q := RingQueue.Pop(m.inner);
      (CQ.Popped(x), Mpmc(q, m.closed, m.queueSize - 1, m.uncounted))
    else if m.closed then (CQ.Drained, m)
    else (CQ.Blocked, m)
  }

  /**
   * `size()`: the atomic counter. It is the number of queued items less
   * the pushes not yet counted, modulo 2^64, and so the number of queued
   * items whenever no push is between its unlock and its increment.
   */
  function Size<T>(m: Mpmc<T>): (n: nat)
    requires Valid(m)
    ensures n < SizeLimit
    ensures n == WrapSize(CQ.Size(Abstract(m)) - m.uncounted)
    ensures m.uncounted == 0 ==> n == CQ.Size(Abstract(m))
  {
    assert CQ.Size(Abstract(m)) == m.inner.Size() < SizeLimit;
    WrapSize(m.queueSize)
  }

  /**
   * `empty()`: the counter reads zero. With no push between its unlock and
   * its increment, that is exactly when nothing is queued.
   */
  function IsEmpty<T>(m: Mpmc<T>): (b: bool)
    requires Valid(m)
    ensures b <==> Size(m) == 0
    ensures m.uncounted == 0 ==> (b <==> Abstract(m).items == [])
  {
    WrapSize(m.queueSize) == 0
  }

  /**
   * The window between `try_push`'s unlock and its increment: on an open,
   * empty queue, a `try_pop` that runs in it takes the item and leaves the
   * counter at SIZE_MAX, so `size()` reads 2^64 - 1 and `empty()` false on
   * an empty queue until the increment lands.
   */
  lemma CountLagExample<T>(m: Mpmc<T>, x: T)
    requires Valid(m) && !m.closed && Abstract(m).items == [] && m.uncounted == 0
    ensures TryPush(m, x).0
    ensures var m2 := TryPop(TryPush(m, x).1).1;
      && TryPop(TryPush(m, x).1).0 == Some(x)
      && Abstract(m2).items == []
      && Size(m2) == SizeLimit - 1 && !IsEmpty(m2)
      && Size(CountPush(m2)) == 0 && IsEmpty(CountPush(m2))
  {
    assert m.inner.Size() == 0;
    var m1 := TryPush(m, x).1;
    var m2 := TryPop(m1).1;
    assert m2.queueSize == -1;
    WrapSmall(-1);
  }

  // ---------------------------------------------------------------------
  // Traces
  // ---------------------------------------------------------------------

  /** One call of a trace: `PushOp` is `try_push`, `PollOp` is `try_pop`. */
  function Step<T>(m: Mpmc<T>, op: CQ.QueueOp<T>): (r: (CQ.Reply<T>, Mpmc<T>))
    requires Valid(m) && m.inner.Size() < MaxCapacity
    ensures Valid(r.1) && r.1.inner.Size() <= m.inner.Size() + 1 && r.1.uncounted == m.uncounted
    ensures (r.0, Abstract(r.1)) == CQ.Step(Abstract(m), op)
  {
    match op
    case PushOp(x) => var (ok, m') := TryPushCall(m, x); (CQ.PushReply(ok), m')
    case PollOp => var (got, m') := TryPop(m); (CQ.PollReply(got), m')
    case PopOp => var (got, m') := Pop(m); (CQ.PopReply(got), m')
    case CloseOp => (CQ.CloseReply, Close(m))
  }

  function Run<T>(m: Mpmc<T>, ops: seq<CQ.QueueOp<T>>): (r: (seq<CQ.Reply<T>>, Mpmc<T>))
    requires Valid(m) && m.inner.Size() + |ops| <= MaxCapacity
    ensures Valid(r.1) && |r.0| == |ops| && r.1.uncounted == m.uncounted
    decreases |ops|
  {
    if ops == [] then ([], m)
    else
      var (reply, m1) := Step(m, ops[0]);
      var (replies, m') := Run(m1, ops[1..]);
      ([reply] + replies, m')
  }

  /** Any trace of calls replies and leaves the items exactly as the closable queue does. */
  lemma {:induction false} RunRefines<T>(m: Mpmc<T>, ops: seq<CQ.QueueOp<T>>)
    requires Valid(m) && m.inner.Size() + |ops| <= MaxCapacity
    ensures var (replies, m') := Run(m, ops);
      (replies, Abstract(m')) == CQ.Replay(Abstract(m), ops)
    decreases |ops|
  {
    if ops != [] {
      var (reply, m1) := Step(m, ops[0]);
      RunRefines(m1, ops[1..]);
    }
  }

  /**
   * The queue is FIFO: over any trace, the initial items followed by the
   * accepted pushes are the popped items followed by the items left, and the
   * counter moves by the successful pushes minus the successful pops; with no
   * other push between its unlock and its increment, `size()` reads that.
   */
  lemma RunIsFifo<T>(m: Mpmc<T>, ops: seq<CQ.QueueOp<T>>)
    requires Valid(m) && m.inner.Size() + |ops| <= MaxCapacity
    ensures var (replies, m') := Run(m, ops);
      && Abstract(m).items + CQ.Accepted(ops, replies) == CQ.Removed(replies) + Abstract(m').items
      && m'.queueSize == m.queueSize + |CQ.Accepted(ops, replies)| - |CQ.Removed(replies)|
      && (m.uncounted == 0 ==> Size(m') == Size(m) + |CQ.Accepted(ops, replies)| - |CQ.Removed(replies)|)
  {
    RunRefines(m, ops);
    CQ.ReplayFifo(Abstract(m), ops);
    CQ.ReplaySize(Abstract(m), ops);
  }

  /**
   * The queue is unbounded past its initial capacity: 17 pushes onto a
   * queue created with capacity 16 are all accepted and queued in order.
   */
  lemma GrowsPastCapacity(blank: int)
    ensures var ops := seq(17, i => CQ.PushOp(i));
      var (replies, m') := Run(NewMpmc(16, blank), ops);
      CQ.Accepted(ops, replies) == seq(17, i => i) && Abstract(m').items == seq(17, i => i)
  {
    var m := NewMpmc(16, blank);
    var ops := seq(17, i => CQ.PushOp(i));
    RunRefines(m, ops);
    OpenPushesAccepted(Abstract(m), 17);
  }

  /** n pushes onto an open queue are all accepted, in order. */
  lemma {:induction false} OpenPushesAccepted(q: CQ.Closable<int>, n: nat)
    requires !q.closed
    ensures var ops := seq(n, i => CQ.PushOp(i));
      var (replies, q') := CQ.Replay(q, ops);
      && CQ.Accepted(ops, replies) == seq(n, i => i)
      && q' == CQ.Closable(q.items + seq(n, i => i), false)
  {
    if n > 0 {
      var ops: seq<CQ.QueueOp<int>> := seq(n, i => CQ.PushOp(i));
      var front := seq(n - 1, i => CQ.PushOp(i));
      assert ops == front + [CQ.PushOp(n - 1)];
      OpenPushesAccepted(q, n - 1);
      var (r1, q1) := CQ.Replay(q, front);
      ReplayAppend(q, front, CQ.PushOp(n - 1));
      var (replies, q') := CQ.Replay(q, ops);
      assert replies == r1 + [CQ.PushReply(true)];
      AcceptedAppend(front, r1, CQ.PushOp(n - 1), CQ.PushReply(true));
      assert seq(n - 1, i => i) + [n - 1] == seq(n, i => i);
      assert q1.items + [n - 1] == q.items + seq(n, i => i);
    }
  }

  /** Running one more call appends its reply and continues from the state reached. */
  lemma {:induction false} ReplayAppend<T>(q: CQ.Closable<T>, ops: seq<CQ.QueueOp<T>>, op: CQ.QueueOp<T>)
    ensures var (r1, q1) := CQ.Replay(q, ops);
      var (reply, q2) := CQ.Step(q1, op);
      CQ.Replay(q, ops + [op]) == (r1 + [reply], q2)
    decreases |ops|
  {
    if ops == [] {
      assert ops + [op] == [op] && [op][1..] == [];
      var (reply, q2) := CQ.Step(q, op);
      assert CQ.Replay(q, []) == ([], q) && CQ.Replay(q2, []) == ([], q2);
      assert CQ.Replay(q, [op]) == ([reply] + [], q2);
      assert [reply] + [] == [] + [reply];
    } else {
      var (reply0, q1) := CQ.Step(q, ops[0]);
      assert (ops + [op])[0] == ops[0] && (ops + [op])[1..] == ops[1..] + [op];
      ReplayAppend(q1, ops[1..], op);
      var (rest, q2) := CQ.Replay(q1, ops[1..]);
      var (reply, q3) := CQ.Step(q2, op);
      assert CQ.Replay(q, ops) == ([reply0] + rest, q2);
      assert CQ.Replay(q, ops + [op]) == ([reply0] + (rest + [reply]), q3);
      assert [reply0] + (rest + [reply]) == ([reply0] + rest) + [reply];
    }
  }

  lemma {:induction false} AcceptedAppend<T>(ops: seq<CQ.QueueOp<T>>, replies: seq<CQ.Reply<T>>,
                                             op: CQ.QueueOp<T>, reply: CQ.Reply<T>)
    requires |replies| == |ops|
    ensures CQ.Accepted(ops + [op], replies + [reply])
      == CQ.Accepted(ops, replies) + CQ.Accepted([op], [reply])
    decreases |ops|
  {
    if ops == [] {
      assert ops + [op] == [op] && replies + [reply] == [reply];
    } else {
      assert (ops + [op])[1..] == ops[1..] + [op];
      assert (replies + [reply])[1..] == replies[1..] + [reply];
      AcceptedAppend(ops[1..], replies[1..], op, reply);
    }
  }
}

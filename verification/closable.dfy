/**
 * The closable FIFO queues `MTQueue<T>` (thread.h) and `MtQueue<T>`
 * (mt_queue.h): a `std::deque` plus a `closed` flag, every member running
 * under one mutex. Each locked region is one transition of the state
 * machine below; a blocking `pop` that would wait is the outcome
 * `Blocked`, which leaves the state unchanged.
 *
 * The two classes differ only in that `MtQueue` gives `closed` no
 * initialiser and offers `push` for lvalues and rvalues; both overloads do
 * the same thing, and the initial flag is a parameter of `NewMtQueue`.
 */
module ClosableQueue {
  import opened Bytes

  datatype Closable<T> = Closable(items: seq<T>, closed: bool)

  /** What a blocking `pop` does: wait, return the front, or report a closed, drained queue. */
  datatype PopResult<T> = Blocked | Popped(item: T) | Drained

  /** A fresh `MTQueue`: empty and open. */
  function NewQueue<T>(): (q: Closable<T>)
    ensures q.items == [] && !q.closed
  {
    Closable([], false)
  }

  /** A fresh `MtQueue`: empty, its `closed` flag whatever the storage held. */
  function NewMtQueue<T>(initiallyClosed: bool): (q: Closable<T>)
    ensures q.items == [] && q.closed == initiallyClosed
  {
    Closable([], initiallyClosed)
  }

  /** `close()`: set the flag; queued items stay to be popped. */
  function Close<T>(q: Closable<T>): (q': Closable<T>)
    ensures q'.closed && q'.items == q.items
  {
    q.(closed := true)
  }

  /** `push(value)`: false and no change once closed, else append at the back. */
  function Push<T>(q: Closable<T>, x: T): (r: (bool, Closable<T>))
    ensures r.0 <==> !q.closed
    ensures r.0 ==> r.1 == Closable(q.items + [x], false)
    ensures !r.0 ==> r.1 == q
  {
    if q.closed then (false, q) else (true, q.(items := q.items + [x]))
  }

  /** `poll(value)`: the front item, removed, or nothing when empty, whether closed or not. */
  function Poll<T>(q: Closable<T>): (r: (Option<T>, Closable<T>))
    ensures r.0.None? <==> q.items == []
    ensures r.0.None? ==> r.1 == q
    ensures r.0.Some? ==> r.0.value == q.items[0] && r.1 == q.(items := q.items[1..])
  {
    if q.items == [] then (None, q) else (Some(q.items[0]), q.(items := q.items[1..]))
  }

  /**
   * `pop(value)`: wait while the queue is open and empty; then report a
   * closed, empty queue, or remove and return the front item.
   */
  function Pop<T>(q: Closable<T>): (r: (PopResult<T>, Closable<T>))
    ensures r.0.Blocked? <==> !q.closed && q.items == []
    ensures r.0.Drained? <==> q.closed && q.items == []
    ensures r.0.Popped? ==> q.items != [] && r.0.item == q.items[0] && r.1 == q.(items := q.items[1..])
    ensures !r.0.Popped? ==> r.1 == q
  {
    if q.items != [] then (Popped(q.items[0]), q.(items := q.items[1..]))
    else if q.closed then (Drained, q)
    else (Blocked, q)
  }

  /** `size()`: the number of queued items. */
  function Size<T>(q: Closable<T>): (n: nat)
    ensures n == 0 <==> q.items == []
    ensures n > 0 <==> Poll(q).0.Some?
    ensures Poll(q).0.Some? ==> |Poll(q).1.items| == n - 1
  {
    |q.items|
  }

  /** A `pop` that does not wait removes exactly what `poll` removes. */
  lemma PopAgreesWithPoll<T>(q: Closable<T>)
    requires !Pop(q).0.Blocked?
    ensures Pop(q).0.Popped? <==> Poll(q).0.Some?
    ensures Pop(q).0.Popped? ==> Pop(q).0.item == Poll(q).0.value && Pop(q).1 == Poll(q).1
  {
  }

  /** `close` is idempotent. */
  lemma CloseIdempotent<T>(q: Closable<T>)
    ensures Close(Close(q)) == Close(q)
  {
  }

  /** A fresh `MtQueue` whose flag starts set refuses every push. */
  lemma MtQueueStartsClosed<T>(x: T)
    ensures !Push(NewMtQueue<T>(true), x).0
    ensures Push(NewMtQueue<T>(false), x) == Push(NewQueue<T>(), x)
  {
  }

  // ---------------------------------------------------------------------
  // Sequential traces
  // ---------------------------------------------------------------------

  datatype QueueOp<T> = PushOp(item: T) | PollOp | PopOp | CloseOp

  /** What one call returns. */
  datatype Reply<T> = PushReply(ok: bool) | PollReply(polled: Option<T>) | PopReply(popped: PopResult<T>) | CloseReply

  function Step<T>(q: Closable<T>, op: QueueOp<T>): (r: (Reply<T>, Closable<T>))
  {
    match op
    case PushOp(x) => var (ok, q') := Push(q, x); (PushReply(ok), q')
    case PollOp => var (got, q') := Poll(q); (PollReply(got), q')
    case PopOp => var (got, q') := Pop(q); (PopReply(got), q')
    case CloseOp => (CloseReply, Close(q))
  }

  /** Run the calls one after the other: the replies in order, and the final queue. */
  function Replay<T>(q: Closable<T>, ops: seq<QueueOp<T>>): (r: (seq<Reply<T>>, Closable<T>))
    ensures |r.0| == |ops|
    decreases |ops|
  {
    if ops == [] then ([], q)
    else
      var (reply, q1) := Step(q, ops[0]);
      var (replies, q') := Replay(q1, ops[1..]);
      ([reply] + replies, q')
  }

  /** The items the calls appended: those of the pushes that returned true. */
  function Accepted<T>(ops: seq<QueueOp<T>>, replies: seq<Reply<T>>): seq<T>
    requires |replies| == |ops|
  {
    if ops == [] then []
    else
      (if ops[0].PushOp? && replies[0] == PushReply(true) then [ops[0].item] else [])
        + Accepted(ops[1..], replies[1..])
  }

  /** The items the calls removed, in order: those returned by polls and pops. */
  function Removed<T>(replies: seq<Reply<T>>): seq<T>
  {
    if replies == [] then []
    else
      (match replies[0]
       case PollReply(Some(x)) => [x]
       case PopReply(Popped(x)) => [x]
       case _ => [])
        + Removed(replies[1..])
  }

  /** One call keeps the FIFO balance: what was there plus what it appended is what it removed plus what is left. */
  lemma StepFifo<T>(q: Closable<T>, op: QueueOp<T>)
    ensures var (reply, q') := Step(q, op);
      q.items + Accepted([op], [reply]) == Removed([reply]) + q'.items
  {
    var (reply, q') := Step(q, op);
    assert Accepted([op], [reply]) == (if op.PushOp? && reply == PushReply(true) then [op.item] else []) + [];
    assert Removed([reply]) == (match reply
       case PollReply(Some(x)) => [x]
       case PopReply(Popped(x)) => [x]
       case _ => []) + [];
    if q.items != [] && (op.PollOp? || op.PopOp?) {
      assert q.items == [q.items[0]] + q.items[1..];
    }
  }

  lemma AcceptedCons<T>(ops: seq<QueueOp<T>>, replies: seq<Reply<T>>)
    requires |replies| == |ops| && ops != []
    ensures Accepted(ops, replies) == Accepted([ops[0]], [replies[0]]) + Accepted(ops[1..], replies[1..])
  {
    assert [ops[0]][1..] == [] && [replies[0]][1..] == [];
  }

  lemma RemovedCons<T>(replies: seq<Reply<T>>)
    requires replies != []
    ensures Removed(replies) == Removed([replies[0]]) + Removed(replies[1..])
  {
    assert [replies[0]][1..] == [];
  }

  /**
   * FIFO: items come out in the order they went in. Over any run, the
   * initial items followed by the accepted pushes are the removed items
   * followed by what is left.
   */
  lemma {:induction false} ReplayFifo<T>(q: Closable<T>, ops: seq<QueueOp<T>>)
    ensures var (replies, q') := Replay(q, ops);
      q.items + Accepted(ops, replies) == Removed(replies) + q'.items
    decreases |ops|
  {
    if ops != [] {
      var (reply, q1) := Step(q, ops[0]);
      var (rest, q') := Replay(q1, ops[1..]);
      var replies := [reply] + rest;
      assert Replay(q, ops) == (replies, q');
      StepFifo(q, ops[0]);
      ReplayFifo(q1, ops[1..]);
      AcceptedCons(ops, replies);
      RemovedCons(replies);
      assert replies[1..] == rest;
      var acc0, rem0 := Accepted([ops[0]], [reply]), Removed([reply]);
      var acc1, rem1 := Accepted(ops[1..], rest), Removed(rest);
      Regroup(q.items, acc0, acc1, rem0, q1.items, rem1, q'.items);
    }
  }

  /** Sequence bookkeeping for one step of the FIFO balance. */
  lemma Regroup<T>(s: seq<T>, acc0: seq<T>, acc1: seq<T>, rem0: seq<T>, mid: seq<T>, rem1: seq<T>, t: seq<T>)
    requires s + acc0 == rem0 + mid && mid + acc1 == rem1 + t
    ensures s + (acc0 + acc1) == (rem0 + rem1) + t
  {
    calc {
      s + (acc0 + acc1);
      (s + acc0) + acc1;
      (rem0 + mid) + acc1;
      rem0 + (mid + acc1);
      rem0 + (rem1 + t);
    }
  }

  /** `size()` is the initial size plus the successful pushes minus the successful pops. */
  lemma ReplaySize<T>(q: Closable<T>, ops: seq<QueueOp<T>>)
    ensures var (replies, q') := Replay(q, ops);
      Size(q') == Size(q) + |Accepted(ops, replies)| - |Removed(replies)|
  {
    var (replies, q') := Replay(q, ops);
    ReplayFifo(q, ops);
    assert |q.items + Accepted(ops, replies)| == |Removed(replies) + q'.items|;
  }

  /** Once closed, a queue stays closed and accepts no push, whatever the calls. */
  lemma {:induction false} ReplayClosed<T>(q: Closable<T>, ops: seq<QueueOp<T>>)
    requires q.closed
    ensures var (replies, q') := Replay(q, ops);
      q'.closed && Accepted(ops, replies) == []
      && forall k :: 0 <= k < |ops| && ops[k].PushOp? ==> replies[k] == PushReply(false)
    decreases |ops|
  {
    if ops != [] {
      var (reply, q1) := Step(q, ops[0]);
      var (rest, q') := Replay(q1, ops[1..]);
      ReplayClosed(q1, ops[1..]);
      var replies := [reply] + rest;
      forall k | 0 <= k < |ops| && ops[k].PushOp?
        ensures replies[k] == PushReply(false)
      {
        if k > 0 {
          assert ops[1..][k - 1] == ops[k];
        }
      }
    }
  }

  /**
   * A closed queue is drained by exactly as many blocking pops as it holds
   * items, and every pop after that reports the closed, empty queue.
   */
  lemma {:induction false} DrainClosed<T>(q: Closable<T>, n: nat)
    requires q.closed
    ensures var (replies, q') := Replay(q, seq(n, _ => PopOp));
      && (forall k :: 0 <= k < n && k < |q.items| ==> replies[k] == PopReply(Popped(q.items[k])))
      && (forall k :: |q.items| <= k < n ==> replies[k] == PopReply(Drained))
      && q' == (if n <= |q.items| then q.(items := q.items[n..]) else q.(items := []))
    decreases n
  {
    if n > 0 {
      var ops: seq<QueueOp<T>> := seq(n, _ => PopOp);
      assert ops[0] == PopOp && ops[1..] == seq(n - 1, _ => PopOp);
      var (reply, q1) := Step(q, PopOp);
      DrainClosed(q1, n - 1);
      var (rest, q') := Replay(q1, ops[1..]);
      var replies := [reply] + rest;
      if q.items != [] {
        assert q1.items == q.items[1..];
        forall k | 0 < k < n && k < |q.items|
          ensures replies[k] == PopReply(Popped(q.items[k]))
        {
          assert q1.items[k - 1] == q.items[k];
        }
        if n <= |q.items| {
          assert q.items[1..][n - 1..] == q.items[n..];
        }
      }
    }
  }
}

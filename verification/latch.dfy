/**
 * `TaskLatch` (sync.h, sync.cpp): a one-shot countdown over an atomic
 * `ptrdiff_t`. Each member is one atomic transition; aborting the process is
 * the outcome `Aborted`, and the notification of waiters is the flag
 * `signalled` of a count-down.
 *
 * The counter is a 64-bit signed integer and `fetch_sub` wraps in two's
 * complement; the model writes the wrap out, and proves it never happens
 * on a count-down that does not abort.
 */
module Latch {
  import opened Bits
  import opened Bytes

  const PtrdiffMax: nat := 0x7FFF_FFFF_FFFF_FFFF
  const PtrdiffMin: int := -0x8000_0000_0000_0000

  predicate InRange(v: int)
  {
    PtrdiffMin <= v <= PtrdiffMax
  }

  /** Signed 64-bit arithmetic: reduce into [-2^63, 2^63) modulo 2^64. */
  function WrapPtrdiff(x: int): (r: int)
    ensures InRange(r)
    ensures InRange(x) ==> r == x
  {
    (x - PtrdiffMin) % SizeLimit + PtrdiffMin
  }

  datatype Latch = Latch(count: int)

  datatype CountDownResult = Aborted | Counted(latch: Latch, signalled: bool)

  /**
   * `TaskLatch(count)`: the counter starts at `count`; a count above
   * `PTRDIFF_MAX` aborts (`None`).
   */
  function NewLatch(count: nat): (r: Option<Latch>)
    requires count < SizeLimit
    ensures r.None? <==> count > PtrdiffMax
    ensures r.Some? ==> r.value.count == count && InRange(r.value.count)
  {
    if count > PtrdiffMax then None else Some(Latch(count))
  }

  /**
   * `count_down(amount)`: abort when `amount` exceeds `PTRDIFF_MAX`;
   * otherwise subtract it, signal the waiters when the value before the call
   * was exactly `amount`, and abort when it was already zero or negative
   * without landing on zero.
   */
  function CountDown(l: Latch, amount: nat): (r: CountDownResult)
    requires InRange(l.count) && amount < SizeLimit
    ensures r.Aborted? <==> amount > PtrdiffMax || (l.count <= 0 && l.count != amount)
    ensures r.Counted? ==> r.latch.count == l.count - amount && InRange(r.latch.count)
    ensures r.Counted? ==> (r.signalled <==> l.count == amount)
  {
    if amount > PtrdiffMax then Aborted
    else
      var result := l.count;
      var next := Latch(WrapPtrdiff(l.count - amount));
      if result == amount then Counted(next, true)
      else if result <= 0 then Aborted
      else Counted(next, false)
  }

  /** `done()`: the counter is zero. */
  function Done(l: Latch): (b: bool)
    ensures b <==> l.count == 0
    ensures b ==> forall amount :: 0 < amount < SizeLimit ==> CountDown(l, amount).Aborted?
  {
    l.count == 0
  }

  /**
   * `wait()`: returns once the counter is zero, and otherwise blocks; in a
   * sequential run it returns exactly when the latch is done. A waiter
   * blocked on a positive count is released by counting down what remains.
   */
  function Wait(l: Latch): (released: bool)
    ensures released <==> l.count == 0
    ensures !released && 0 < l.count <= PtrdiffMax ==>
      var r := CountDown(l, l.count); r.Counted? && r.signalled && Done(r.latch)
  {
    Done(l)
  }

  // ---------------------------------------------------------------------
  // Runs of count-downs
  // ---------------------------------------------------------------------

  datatype RunResult = RunAborted | RunFinished(latch: Latch, signals: seq<bool>)

  /** Apply `count_down` for each amount in turn, recording whether each one signalled. */
  function CountDowns(l: Latch, amounts: seq<nat>): (r: RunResult)
    requires InRange(l.count)
    requires forall k :: 0 <= k < |amounts| ==> amounts[k] < SizeLimit
    ensures r.RunFinished? ==> |r.signals| == |amounts| && InRange(r.latch.count)
    decreases |amounts|
  {
    if amounts == [] then RunFinished(l, [])
    else
      match CountDown(l, amounts[0])
      case Aborted => RunAborted
      case Counted(l', s) =>
        match CountDowns(l', amounts[1..])
        case RunAborted => RunAborted
        case RunFinished(l'', signals) => RunFinished(l'', [s] + signals)
  }

  function Sum(amounts: seq<nat>): nat
  {
    if amounts == [] then 0 else amounts[0] + Sum(amounts[1..])
  }

  /**
   * Counting a latch down by positive amounts that add up to its count never
   * aborts, signals exactly once, on the last call, and leaves it done; it
   * is not done before that call.
   */
  lemma {:induction false} ExactCountDown(l: Latch, amounts: seq<nat>)
    requires InRange(l.count) && amounts != []
    requires forall k :: 0 <= k < |amounts| ==> 0 < amounts[k] <= PtrdiffMax
    requires Sum(amounts) == l.count
    ensures CountDowns(l, amounts).RunFinished?
    ensures var r := CountDowns(l, amounts);
      Done(r.latch) && forall k :: 0 <= k < |amounts| ==> (r.signals[k] <==> k == |amounts| - 1)
    decreases |amounts|
  {
    var r := CountDown(l, amounts[0]);
    assert Sum(amounts) == amounts[0] + Sum(amounts[1..]);
    if |amounts| == 1 {
      assert Sum(amounts[1..]) == 0;
    } else {
      SumPositive(amounts[1..]);
      ExactCountDown(r.latch, amounts[1..]);
      var rest := CountDowns(r.latch, amounts[1..]);
      var signals := [false] + rest.signals;
      forall k | 0 <= k < |amounts|
        ensures signals[k] <==> k == |amounts| - 1
      {
        if k > 0 {
          assert signals[k] == rest.signals[k - 1];
        }
      }
    }
  }

  lemma {:induction false} SumPositive(amounts: seq<nat>)
    requires amounts != [] && forall k :: 0 <= k < |amounts| ==> amounts[k] > 0
    ensures Sum(amounts) > 0
  {
  }

  /**
   * The test sequence: `TaskLatch(3)`, then `count_down(2)` leaves it not
   * done, and `count_down(1)` makes it done and signals.
   */
  lemma CountDownExample()
    ensures NewLatch(3) == Some(Latch(3))
    ensures var r := CountDown(Latch(3), 2);
      r.Counted? && !Done(r.latch) && !r.signalled
      && var r' := CountDown(r.latch, 1);
         r'.Counted? && Done(r'.latch) && r'.signalled
  {
  }

  /**
   * Overshooting from a positive count goes negative without aborting and
   * leaves the latch never done; the next count-down then aborts.
   */
  lemma OvershootExample()
    ensures var r := CountDown(Latch(1), 2);
      && r.Counted? && r.latch.count == -1 && !Done(r.latch) && !r.signalled
      && CountDown(r.latch, 1).Aborted?
  {
  }
}

/**
 * `CountingFuture` (thread.h): an atomic `size_t` counter of tasks still to
 * finish. `decrement` is one atomic `fetch_sub(1)`; the caller whose call
 * took the counter from one to zero notifies the waiters. Nothing guards
 * the counter against going below zero, so a surplus decrement wraps it
 * round to `SIZE_MAX`, which the model writes out.
 */
module CountingFuture {
  import opened Bits

  datatype Future = Future(count: nat)

  predicate Valid(f: Future)
  {
    f.count < SizeLimit
  }

  /** `CountingFuture(count)`: `count` tasks outstanding. */
  function NewFuture(count: nat): (f: Future)
    requires count < SizeLimit
    ensures Valid(f) && Remaining(f) == count
  {
    Future(count)
  }

  /**
   * `decrement()`: one task finished. The result is the new counter and
   * whether this call notified the waiters, which happens exactly when the
   * counter was one.
   */
  function Decrement(f: Future): (r: (Future, bool))
    requires Valid(f)
    ensures Valid(r.0)
    ensures r.1 <==> f.count == 1
    ensures f.count > 0 ==> r.0.count == f.count - 1
    ensures f.count == 0 ==> r.0.count == SizeLimit - 1
  {
    var previous := f.count;
    (Future(WrapSize(f.count - 1)), previous == 1)
  }

  /** `remaining()`: the counter. */
  function Remaining(f: Future): (n: nat)
    ensures n == f.count
    ensures Valid(f) ==> (Decrement(f).1 <==> n == 1)
    ensures Valid(f) && n > 0 ==> Decrement(f).0.count == n - 1
  {
    f.count
  }

  /** `done()`: no task outstanding. */
  function Done(f: Future): (b: bool)
    ensures b <==> Remaining(f) == 0
  {
    f.count == 0
  }

  /**
   * `wait()`: returns once the counter is zero, and otherwise blocks; in a
   * sequential run it returns exactly when the future is done.
   */
  function Wait(f: Future): (released: bool)
    ensures released <==> f.count == 0
  {
    Done(f)
  }

  /** Apply `decrement` `n` times, recording which calls notified. */
  function Decrements(f: Future, n: nat): (r: (Future, seq<bool>))
    requires Valid(f)
    ensures Valid(r.0) && |r.1| == n
    decreases n
  {
    if n == 0 then (f, [])
    else
      var (f1, notified) := Decrement(f);
      var (f', rest) := Decrements(f1, n - 1);
      (f', [notified] + rest)
  }

  /**
   * A future for `n` tasks, decremented once per task, is done exactly at
   * the end, and exactly the last decrement notifies the waiters.
   */
  lemma {:induction false} CountsDownToDone(n: nat, k: nat)
    requires n < SizeLimit && k <= n
    ensures var (f', notified) := Decrements(NewFuture(n), k);
      && Remaining(f') == n - k
      && (Done(f') <==> k == n)
      && forall j :: 0 <= j < k ==> (notified[j] <==> j == n - 1)
    decreases k
  {
    if k > 0 {
      var (f1, first) := Decrement(NewFuture(n));
      assert f1 == NewFuture(n - 1);
      CountsDownToDone(n - 1, k - 1);
      var (f', rest) := Decrements(f1, k - 1);
      var notified := [first] + rest;
      assert Decrements(NewFuture(n), k) == (f', notified);
      forall j | 0 <= j < k
        ensures notified[j] <==> j == n - 1
      {
        if j > 0 {
          assert notified[j] == rest[j - 1];
        }
      }
    }
  }

  /** One decrement too many wraps the counter to `SIZE_MAX`, leaving the future not done. */
  lemma SurplusDecrementWraps(n: nat)
    requires n < SizeLimit
    ensures var (f', notified) := Decrements(NewFuture(n), n + 1);
      Remaining(f') == SizeLimit - 1 && !Done(f') && !notified[n]
  {
    CountsDownToDone(n, n);
    var (f1, notified1) := Decrements(NewFuture(n), n);
    DecrementsSnoc(NewFuture(n), n);
  }

  /** `n + 1` decrements are `n` decrements followed by one more. */
  lemma {:induction false} DecrementsSnoc(f: Future, n: nat)
    requires Valid(f)
    ensures var (f1, s1) := Decrements(f, n);
      var (f2, last) := Decrement(f1);
      Decrements(f, n + 1) == (f2, s1 + [last])
    decreases n
  {
    if n == 0 {
      var (f2, last) := Decrement(f);
      assert Decrements(f2, 0) == (f2, []);
      assert Decrements(f, 1) == (f2, [last] + []);
      assert [last] + [] == [] + [last];
    } else {
      var (g, first) := Decrement(f);
      DecrementsSnoc(g, n - 1);
      var (g1, s1) := Decrements(g, n - 1);
      var (g2, last) := Decrement(g1);
      assert Decrements(f, n) == (g1, [first] + s1);
      assert Decrements(f, n + 1) == (g2, [first] + (s1 + [last]));
      assert [first] + (s1 + [last]) == ([first] + s1) + [last];
    }
  }
}

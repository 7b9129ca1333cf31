/**
 * The growable ring-buffer queue `Queue<T>`: a power-of-two buffer with
 * free-running `size_t` head and tail counters. The logical contents are the
 * `tail - head` (mod 2^64) slots starting at `head & (capacity - 1)`.
 *
 * The element type's default constructor is modelled by the `blank` value
 * that fills fresh buffer slots.
 */
module RingQueue {
  import opened Bits

  /** Largest capacity a `size_t` capacity can reach by doubling. */
  const MaxCapacity: nat := 0x8000_0000_0000_0000

  datatype Queue<T> = Queue(data: seq<T>, head: nat, tail: nat, blank: T)
  {
    function Capacity(): nat
    {
      |data|
    }

    /** `tail - head` in `size_t` arithmetic. */
    function Size(): nat
    {
      WrapSize(tail - head)
    }

    predicate Valid()
    {
      && IsPowerOfTwo(|data|)
      && |data| <= MaxCapacity
      && head < SizeLimit
      && tail < SizeLimit
      && Size() <= |data|
    }

    /** Abstraction function: the queued elements, oldest first. */
    function Contents(): seq<T>
      requires Valid()
    {
      seq(Size(), i requires 0 <= i < Size() => data[(head + i) % |data|])
    }
  }

  // ---------------------------------------------------------------------
  // Modular index facts
  // ---------------------------------------------------------------------

  /** A power of two up to 2^64 sees through `size_t` wrap-around. */
  lemma WrapMod(x: int, c: nat)
    requires IsPowerOfTwo(c) && c <= SizeLimit
    ensures WrapSize(x) % c == x % c
  {
    PowerOfTwoDividesSizeLimit(c);
    var m := SizeLimit / c;
    ModUnique(SizeLimit, c, m, 0);
    var d := x / SizeLimit;
    assert SizeLimit * d == c * (m * d) by {
      assert SizeLimit == c * m;
    }
    assert WrapSize(x) == x + c * (-(m * d));
    ModAddMultiple(x, c, -(m * d));
  }

  /** A full queue below the largest capacity can still double. */
  lemma GrowthFits<T>(q: Queue<T>)
    requires q.Valid() && q.Size() < MaxCapacity
    ensures q.Size() == q.Capacity() ==> 2 * q.Capacity() <= MaxCapacity
  {
    Pow2Constants();
    Pow2IsPowerOfTwo(63);
    if q.Size() == q.Capacity() {
      PowerBelowPower(q.Capacity(), MaxCapacity);
    }
  }

  /** Where the head, tail and size sit inside the buffer. */
  lemma SlotLayout<T>(q: Queue<T>)
    requires q.Valid()
    ensures var c, h, t, n := |q.data|, Slot(q.head, |q.data|), Slot(q.tail, |q.data|), q.Size();
      && (h + n < c ==> t == h + n)
      && (h + n >= c ==> t == h + n - c)
  {
    var c, h, t, n := |q.data|, Slot(q.head, |q.data|), Slot(q.tail, |q.data|), q.Size();
    TailFromHead(q);
    ModAddLeft(q.head, n, c);
    if h + n < c {
      ModUnique(h + n, c, 0, h + n);
    } else {
      ModUnique(h + n, c, 1, h + n - c);
    }
  }

  /** The tail slot is `size` slots past the head, counted modulo the capacity. */
  lemma TailFromHead<T>(q: Queue<T>)
    requires q.Valid()
    ensures (q.head + q.Size()) % |q.data| == q.tail % |q.data|
  {
    var c := |q.data|;
    SizeFormula(q);
    if q.head > q.tail {
      PowerOfTwoDividesSizeLimit(c);
      ModUnique(SizeLimit, c, SizeLimit / c, 0);
      ModAddMultiple(q.tail, c, SizeLimit / c);
    }
  }

  /** Element i of the contents read through the buffer index of the head. */
  lemma ContentsAt<T>(q: Queue<T>, i: nat)
    requires q.Valid() && i < q.Size()
    ensures var c, h := |q.data|, Slot(q.head, |q.data|);
      && (h + i < c ==> q.Contents()[i] == q.data[h + i])
      && (h + i >= c ==> h + i - c < c && q.Contents()[i] == q.data[h + i - c])
  {
    var c, h := |q.data|, Slot(q.head, |q.data|);
    ModAddLeft(q.head, i, c);
    if h + i < c {
      ModUnique(h + i, c, 0, h + i);
    } else {
      ModUnique(h + i, c, 1, h + i - c);
    }
  }

  // ---------------------------------------------------------------------
  // Operations
  // ---------------------------------------------------------------------

  /**
   * `Queue(initial)`: a buffer of `next_pow2_inclusive(initial)` blank slots.
   * The `int` shift inside `next_pow2_inclusive` limits `initial` to 2^30.
   */
  function New<T>(initial: nat, blank: T): (q: Queue<T>)
    requires initial <= MaxIntPow2
    ensures q.Valid() && q.Contents() == []
    ensures IsPowerOfTwo(q.Capacity()) && initial <= q.Capacity()
    ensures forall k: nat :: initial <= Pow2(k) ==> q.Capacity() <= Pow2(k)
  {
    var cap := NextPow2Inclusive(initial);
    Queue(seq(cap, _ => blank), 0, 0, blank)
  }

  /**
   * `ensure_capacity()`: move the contents, oldest first, to the start of a
   * buffer of twice the capacity; head becomes 0 and tail the old size.
   */
  function Grow<T>(q: Queue<T>): (q': Queue<T>)
    requires q.Valid() && 2 * q.Capacity() <= MaxCapacity
    ensures q'.Valid()
    ensures q'.Capacity() == 2 * q.Capacity()
    ensures q'.head == 0 && q'.tail == q.Size()
    ensures q'.Contents() == q.Contents()
  {
    var c := |q.data|;
    var h := Slot(q.head, c);
    var t := Slot(q.tail, c);
    var moved := if h < t then q.data[h..t] else q.data[h..] + q.data[..t];
    var q' := Queue(moved + seq(2 * c - |moved|, _ => q.blank), 0, q.Size(), q.blank);
    GrowKeepsContents(q, q');
    q'
  }

  lemma GrowKeepsContents<T>(q: Queue<T>, q': Queue<T>)
    requires q.Valid() && 2 * q.Capacity() <= MaxCapacity
    requires var c, h, t := |q.data|, Slot(q.head, |q.data|), Slot(q.tail, |q.data|);
      var moved := if h < t then q.data[h..t] else q.data[h..] + q.data[..t];
      q' == Queue(moved + seq(2 * c - |moved|, _ => q.blank), 0, q.Size(), q.blank)
    ensures q'.Valid() && q'.Capacity() == 2 * q.Capacity()
    ensures q'.Contents() == q.Contents()
  {
    var c, h, t, n := |q.data|, Slot(q.head, |q.data|), Slot(q.tail, |q.data|), q.Size();
    SlotLayout(q);
    assert q'.Size() == n;
    assert IsPowerOfTwo(2 * c) by {
      assert (2 * c) / 2 == c;
    }
    forall i | 0 <= i < n
      ensures q'.Contents()[i] == q.Contents()[i]
    {
      ContentsAt(q, i);
      assert q'.Contents()[i] == q'.data[i % (2 * c)];
      ModUnique(i, 2 * c, 0, i);
    }
  }

  /**
   * The element moves of `ensure_capacity` as the copy loops they are: one
   * loop when the live slots do not wrap, two (tail part, then head part)
   * when they do. The moved elements land at the start, in logical order.
   */
  method GrowCopy<T>(q: Queue<T>) returns (moved: seq<T>)
    requires q.Valid() && 2 * q.Capacity() <= MaxCapacity
    ensures |moved| == 2 * q.Capacity()
    ensures moved[..q.Size()] == q.Contents()
  {
    var c := |q.data|;
    var h := Slot(q.head, c);
    var t := Slot(q.tail, c);
    moved := seq(2 * c, _ => q.blank);
    var k := h;
    var stop := if h < t then t else c;
    while k < stop
      invariant h <= k <= stop && |moved| == 2 * c
      invariant forall j :: 0 <= j < k - h ==> moved[j] == q.data[h + j]
    {
      moved := moved[k - h := q.data[k]];
      k := k + 1;
    }
    if h >= t {
      k := 0;
      while k < t
        invariant 0 <= k <= t && |moved| == 2 * c
        invariant forall j :: 0 <= j < c - h ==> moved[j] == q.data[h + j]
        invariant forall j :: 0 <= j < k ==> moved[c - h + j] == q.data[j]
      {
        moved := moved[c - h + k := q.data[k]];
        k := k + 1;
      }
    }
    MovedIsContents(q, moved);
  }

  /** The slots the copy loops fill, read through the layout of the live slots. */
  ghost predicate MovedFrom<T>(q: Queue<T>, moved: seq<T>)
    requires q.Valid()
  {
    var c, h, t := |q.data|, Slot(q.head, |q.data|), Slot(q.tail, |q.data|);
    && |moved| == 2 * c
    && (h < t ==> forall j :: 0 <= j < t - h ==> moved[j] == q.data[h + j])
    && (h >= t ==> forall j :: 0 <= j < c - h ==> moved[j] == q.data[h + j])
    && (h >= t ==> forall j :: 0 <= j < t ==> moved[c - h + j] == q.data[j])
  }

  lemma MovedIsContents<T>(q: Queue<T>, moved: seq<T>)
    requires q.Valid() && MovedFrom(q, moved)
    ensures q.Size() <= |moved| && moved[..q.Size()] == q.Contents()
  {
    SlotLayout(q);
    forall i | 0 <= i < q.Size()
      ensures moved[i] == q.Contents()[i]
    {
      ContentsAt(q, i);
    }
  }

  /**
   * `push(item)`: grow first when full, then store at `tail & (capacity - 1)`
   * and advance the tail. Growth needs the doubled capacity to fit a `size_t`.
   */
  function Push<T>(q: Queue<T>, x: T): (q': Queue<T>)
    requires q.Valid() && q.Size() < MaxCapacity
    ensures q'.Valid()
    ensures q'.Contents() == q.Contents() + [x]
    ensures q'.Size() == q.Size() + 1
    ensures q'.Capacity() == if q.Size() == q.Capacity() then 2 * q.Capacity() else q.Capacity()
    ensures q.Size() == q.Capacity() ==> q'.head == 0 && q'.tail == q.Size() + 1
  {
    GrowthFits(q);
    var g := if q.Size() == q.Capacity() then Grow(q) else q;
    var q' := Queue(g.data[Slot(g.tail, |g.data|) := x], g.head, WrapSize(g.tail + 1), g.blank);
    PushAppends(g, x, q');
    q'
  }

  lemma PushAppends<T>(g: Queue<T>, x: T, q': Queue<T>)
    requires g.Valid() && g.Size() < g.Capacity()
    requires q' == Queue(g.data[Slot(g.tail, |g.data|) := x], g.head, WrapSize(g.tail + 1), g.blank)
    ensures q'.Valid() && q'.Size() == g.Size() + 1
    ensures q'.Contents() == g.Contents() + [x]
  {
    PushSize(g, x, q');
    var c, n := |g.data|, g.Size();
    SlotLayout(g);
    forall i | 0 <= i < n
      ensures q'.Contents()[i] == g.Contents()[i]
    {
      ContentsAt(g, i);
      ContentsAt(q', i);
    }
    ContentsAt(q', n);
  }

  lemma PushSize<T>(g: Queue<T>, x: T, q': Queue<T>)
    requires g.Valid() && g.Size() < g.Capacity()
    requires q' == Queue(g.data[Slot(g.tail, |g.data|) := x], g.head, WrapSize(g.tail + 1), g.blank)
    ensures q'.Valid() && q'.Size() == g.Size() + 1
  {
    SizeFormula(g);
    SizeFormula(q');
    if g.tail + 1 == SizeLimit {
      assert WrapSize(g.tail + 1) == 0 by {
        ModUnique(SizeLimit, SizeLimit, 1, 0);
      }
    }
  }

  /** `tail - head` without the modulus: add 2^64 when the tail has wrapped below the head. */
  lemma SizeFormula<T>(q: Queue<T>)
    requires q.head < SizeLimit && q.tail < SizeLimit
    ensures q.Size() == if q.head <= q.tail then q.tail - q.head else q.tail - q.head + SizeLimit
  {
    WrapSmall(q.tail - q.head);
  }

  /** `front()`: the oldest element; aborts on an empty queue. */
  function Front<T>(q: Queue<T>): (x: T)
    requires q.Valid() && q.head != q.tail
    ensures q.Size() > 0 && x == q.Contents()[0]
  {
    NonEmptySize(q);
    ContentsAt(q, 0);
    q.data[Slot(q.head, |q.data|)]
  }

  lemma NonEmptySize<T>(q: Queue<T>)
    requires q.Valid()
    ensures q.head == q.tail <==> q.Size() == 0
  {
    if q.Size() == 0 {
      ModUnique(q.tail - q.head, SizeLimit, if q.tail >= q.head then 0 else -1, 0);
    }
  }

  /** `pop()`: advance the head only; aborts on an empty queue. */
  function Pop<T>(q: Queue<T>): (q': Queue<T>)
    requires q.Valid() && q.head != q.tail
    ensures q'.Valid()
    ensures q.Size() > 0 && q'.Contents() == q.Contents()[1..]
    ensures q'.data == q.data && q'.tail == q.tail && q'.blank == q.blank
  {
    var q' := q.(head := WrapSize(q.head + 1));
    PopDrops(q, q');
    q'
  }

  lemma PopDrops<T>(q: Queue<T>, q': Queue<T>)
    requires q.Valid() && q.head != q.tail
    requires q' == q.(head := WrapSize(q.head + 1))
    ensures q'.Valid() && q.Size() > 0 && q'.Size() == q.Size() - 1
    ensures q'.Contents() == q.Contents()[1..]
  {
    var c, n := |q.data|, q.Size();
    NonEmptySize(q);
    PopSize(q, q');
    forall i | 0 <= i < n - 1
      ensures q'.Contents()[i] == q.Contents()[i + 1]
    {
      WrapMod(q.head + 1, c);
      ModAddLeft(WrapSize(q.head + 1), i, c);
      ModAddLeft(q.head + 1, i, c);
    }
  }

  lemma PopSize<T>(q: Queue<T>, q': Queue<T>)
    requires q.Valid() && q.Size() > 0
    requires q' == q.(head := WrapSize(q.head + 1))
    ensures q'.Valid() && q'.Size() == q.Size() - 1
  {
    SizeFormula(q);
    SizeFormula(q');
    if q.head + 1 == SizeLimit {
      assert WrapSize(q.head + 1) == 0 by {
        ModUnique(SizeLimit, SizeLimit, 1, 0);
      }
    }
  }

  /** `size()`: the number of queued elements, never above the capacity. */
  function Size<T>(q: Queue<T>): (n: nat)
    requires q.Valid()
    ensures n == |q.Contents()| && n <= q.Capacity() && n < SizeLimit
  {
    q.tail - q.head + (if q.tail >= q.head then 0 else SizeLimit)
  }

  /** `empty()`: head and tail coincide exactly when nothing is queued. */
  function Empty<T>(q: Queue<T>): (b: bool)
    requires q.Valid()
    ensures b <==> q.Contents() == []
  {
    NonEmptySize(q);
    q.head == q.tail
  }

  // ---------------------------------------------------------------------
  // Traces of pushes and pops
  // ---------------------------------------------------------------------

  datatype Op<T> = PushOp(item: T) | PopOp

  datatype Outcome<T> = Aborted | Finished(q: Queue<T>, popped: seq<T>)

  /** Outcome of a trace on the reference FIFO: the sequence left and the elements popped. */
  datatype SpecOutcome<T> = SpecAborted | SpecFinished(left: seq<T>, popped: seq<T>)

  function Pushed<T>(ops: seq<Op<T>>): seq<T>
  {
    if ops == [] then []
    else (if ops[0].PushOp? then [ops[0].item] else []) + Pushed(ops[1..])
  }

  /**
   * Apply a sequence of `push(x)` and `front(); pop()` calls, collecting the
   * popped elements; a pop on an empty queue aborts the process.
   */
  function Run<T>(q: Queue<T>, ops: seq<Op<T>>): (o: Outcome<T>)
    requires q.Valid() && q.Size() + |ops| < MaxCapacity
    ensures o.Finished? ==> o.q.Valid()
    decreases |ops|
  {
    if ops == [] then Finished(q, [])
    else match ops[0]
      case PushOp(x) => Run(Push(q, x), ops[1..])
      case PopOp =>
        if Empty(q) then Aborted
        else
          match Run(Pop(q), ops[1..])
          case Aborted => Aborted
          case Finished(q', out) => Finished(q', [Front(q)] + out)
  }

  /** The same trace on a plain sequence: append on push, take the first on pop. */
  function RunSpec<T>(s: seq<T>, ops: seq<Op<T>>): SpecOutcome<T>
    decreases |ops|
  {
    if ops == [] then SpecFinished(s, [])
    else match ops[0]
      case PushOp(x) => RunSpec(s + [x], ops[1..])
      case PopOp =>
        if s == [] then SpecAborted
        else
          match RunSpec(s[1..], ops[1..])
          case SpecAborted => SpecAborted
          case SpecFinished(left, out) => SpecFinished(left, [s[0]] + out)
  }

  function Abstract<T>(o: Outcome<T>): SpecOutcome<T>
    requires o.Finished? ==> o.q.Valid()
  {
    match o
    case Aborted => SpecAborted
    case Finished(q, out) => SpecFinished(q.Contents(), out)
  }

  /** The ring buffer behaves as the reference FIFO on every trace, aborts included. */
  lemma {:induction false} RunRefines<T>(q: Queue<T>, ops: seq<Op<T>>)
    requires q.Valid() && q.Size() + |ops| < MaxCapacity
    ensures Abstract(Run(q, ops)) == RunSpec(q.Contents(), ops)
    decreases |ops|
  {
    if ops != [] {
      if ops[0].PushOp? {
        RunRefines(Push(q, ops[0].item), ops[1..]);
      } else {
        PopRefines(q, ops);
      }
    }
  }

  lemma {:induction false} PopRefines<T>(q: Queue<T>, ops: seq<Op<T>>)
    requires q.Valid() && q.Size() + |ops| < MaxCapacity
    requires ops != [] && ops[0].PopOp?
    ensures Abstract(Run(q, ops)) == RunSpec(q.Contents(), ops)
    decreases |ops|, 0
  {
    if !Empty(q) {
      RunRefines(Pop(q), ops[1..]);
    }
  }

  /**
   * FIFO over any trace: what was queued plus what was pushed equals what
   * was popped plus what is left.
   */
  lemma {:induction false} RunSpecIsFifo<T>(s: seq<T>, ops: seq<Op<T>>)
    ensures RunSpec(s, ops).SpecFinished? ==>
      s + Pushed(ops) == RunSpec(s, ops).popped + RunSpec(s, ops).left
    decreases |ops|
  {
    if ops != [] {
      var rest := ops[1..];
      if ops[0].PushOp? {
        RunSpecIsFifo(s + [ops[0].item], rest);
        assert s + Pushed(ops) == (s + [ops[0].item]) + Pushed(rest);
      } else if s != [] {
        RunSpecIsFifo(s[1..], rest);
        assert s + Pushed(ops) == [s[0]] + (s[1..] + Pushed(rest));
      }
    }
  }

  /** The queue itself is FIFO over any trace that does not abort. */
  lemma RunIsFifo<T>(q: Queue<T>, ops: seq<Op<T>>)
    requires q.Valid() && q.Size() + |ops| < MaxCapacity
    ensures Run(q, ops).Finished? ==>
      q.Contents() + Pushed(ops) == Run(q, ops).popped + Run(q, ops).q.Contents()
  {
    RunRefines(q, ops);
    RunSpecIsFifo(q.Contents(), ops);
  }

  /**
   * Capacity 4: push 1, 2, 3, pop twice, push 4, 5, 6 wraps around without
   * growing; one more push doubles the buffer and relinearises it.
   */
  lemma WrapAroundExample(q0: Queue<int>)
    requires q0.Valid() && q0.Capacity() == 4 && q0.Contents() == []
    ensures var q1 := Push(Push(Push(q0, 1), 2), 3);
      var q2 := Pop(Pop(q1));
      var q3 := Push(Push(Push(q2, 4), 5), 6);
      && q3.Contents() == [3, 4, 5, 6] && q3.Capacity() == 4
      && var q4 := Push(q3, 7);
      q4.Contents() == [3, 4, 5, 6, 7] && q4.Capacity() == 8 && q4.head == 0 && q4.tail == 5
  {
    var a := Push(q0, 1);
    var b := Push(a, 2);
    var q1 := Push(b, 3);
    assert q1.Contents() == [1, 2, 3] && q1.Capacity() == 4;
    NonEmptySize(q1);
    var q1' := Pop(q1);
    assert q1'.Contents() == [2, 3];
    NonEmptySize(q1');
    var q2 := Pop(q1');
    assert q2.Contents() == [3] && q2.Capacity() == 4;
    var c := Push(q2, 4);
    assert c.Contents() == [3, 4];
    var d := Push(c, 5);
    assert d.Contents() == [3, 4, 5];
    var q3 := Push(d, 6);
    assert q3.Contents() == [3, 4, 5, 6] && q3.Capacity() == 4;
  }
}

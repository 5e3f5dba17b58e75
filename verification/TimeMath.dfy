// Time values and their comparison, addition and subtraction (include/min_heap.h), and the two
// computations the reactor makes with them: the interval of a timer and the epoll timeout.

module TimeMath {

  /** `struct timeval`. A value is normal when 0 <= usec < 1000000; the comparison does not need that. */
  datatype Timeval = Timeval(sec: int, usec: int)

  const USEC_PER_SEC := 1000000

  ghost predicate Normal(t: Timeval) {
    0 <= t.usec < USEC_PER_SEC
  }

  function Micros(t: Timeval): int {
    t.sec * 1_000_000 + t.usec
  }

  /** `minheap_timercmp(a, b, >)` */
  predicate Greater(a: Timeval, b: Timeval) {
    if a.sec == b.sec then a.usec > b.usec else a.sec > b.sec
  }

  /** `minheap_timercmp(a, b, <=)` */
  predicate AtMost(a: Timeval, b: Timeval) {
    if a.sec == b.sec then a.usec <= b.usec else a.sec <= b.sec
  }

  /** `minheap_timeradd` */
  function Add(a: Timeval, b: Timeval): Timeval {
    var usec := a.usec + b.usec;
    if usec >= USEC_PER_SEC
    then Timeval(a.sec + b.sec + 1, usec - USEC_PER_SEC)
    else Timeval(a.sec + b.sec, usec)
  }

  /** `minheap_timersub` */
  function Sub(a: Timeval, b: Timeval): Timeval {
    var usec := a.usec - b.usec;
    if usec < 0
    then Timeval(a.sec - b.sec - 1, usec + USEC_PER_SEC)
    else Timeval(a.sec - b.sec, usec)
  }

  /** C's `/` and `%`, which truncate toward zero. */
  function CDiv(x: int, d: int): int
    requires d > 0
  {
    if x >= 0 then x / d else -((-x) / d)
  }

  function CMod(x: int, d: int): int
    requires d > 0
  {
    x - d * CDiv(x, d)
  }

  /** The interval the reactor stores for a timeout of `ms` milliseconds: the leftover milliseconds
      go into the microsecond field unscaled, as the source has it. */
  function Interval(ms: int): Timeval {
    Timeval(CDiv(ms, 1000), CMod(ms, 1000))
  }

  /** The two comparisons are complementary and order normal values by their number of microseconds. */
  lemma ComparisonIsByMicros(a: Timeval, b: Timeval)
    ensures AtMost(a, b) <==> !Greater(a, b)
    ensures Normal(a) && Normal(b) ==> (Greater(a, b) <==> Micros(a) > Micros(b))
  {
    if a.sec < b.sec {
      assert a.sec * USEC_PER_SEC + USEC_PER_SEC <= b.sec * USEC_PER_SEC;
    } else if b.sec < a.sec {
      assert b.sec * USEC_PER_SEC + USEC_PER_SEC <= a.sec * USEC_PER_SEC;
    }
  }

  /** Addition and subtraction of normal values are exact, stay normal and undo each other. */
  lemma AddSubExact(a: Timeval, b: Timeval)
    requires Normal(a) && Normal(b)
    ensures Normal(Add(a, b)) && Micros(Add(a, b)) == Micros(a) + Micros(b)
    ensures Normal(Sub(a, b)) && Micros(Sub(a, b)) == Micros(a) - Micros(b)
    ensures Sub(Add(a, b), b) == a
  {}

  /** The stored interval is the requested number of milliseconds exactly when that is a whole number
      of seconds, for negative arguments too. */
  lemma IntervalExactIff(ms: int)
    ensures Micros(Interval(ms)) == 1000 * ms <==> CMod(ms, 1000) == 0
  {}

  // ---------------------------------------------------------------------------------------------
  // The epoll timeout

  /** `GetEPollwaitTimeoutValue` followed by the loop's conversion to milliseconds. `top` is the
      deadline at the top of the heap, if the heap holds a node. */
  function EpollTimeout(now: Timeval, top: seq<Timeval>): int {
    if top == [] then -1
    else
      var wait := if AtMost(now, top[0]) then Sub(top[0], now) else Timeval(0, 0);
      wait.sec * 1000 + CDiv(wait.usec + 999, 1000)
  }

  /** -1 exactly for an empty heap; otherwise 0 when the top is due, and else the least whole number
      of milliseconds that reaches the deadline: never early, less than one millisecond late. */
  lemma EpollTimeoutExact(now: Timeval, top: seq<Timeval>)
    requires Normal(now) && forall t :: t in top ==> Normal(t)
    ensures EpollTimeout(now, top) == -1 <==> top == []
    ensures top != [] ==>
      var left := Micros(top[0]) - Micros(now);
      var r := EpollTimeout(now, top);
      && 0 <= r
      && (r == 0 <==> left <= 0)
      && (left > 0 ==> left <= 1000 * r < left + 1000)
  {
    if top != [] {
      assert top[0] in top;
      ComparisonIsByMicros(now, top[0]);
      AddSubExact(top[0], now);
      var w := Sub(top[0], now);
      assert 1000 * (w.sec * 1000) == w.sec * USEC_PER_SEC;
    }
  }
}

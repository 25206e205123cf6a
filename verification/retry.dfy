/**
 * The bounded retry decorator `retry(max_attempts, delay)` of the test suite,
 * as a pure interpreter of what the wrapped callable does.
 *
 * One call of the wrapper is determined by `maxAttempts`, `delay` and
 * `outcome`, where `outcome(k)` is what the k-th invocation of the wrapped
 * callable does during that call. The wrapper's observable behaviour is how
 * it ends (`Final`) plus the ordered trace of its events: invocations, the
 * per-attempt failure message, the sleeps and the "all attempts exhausted"
 * message. Wall-clock time and message text are not modelled.
 */
module Retry {
  import opened Optional

  /** What one invocation of the wrapped callable does. */
  datatype Outcome<+T, +E> =
    | Ok(value: T)          // returns normally, whatever the value (an HTTP 4xx/5xx response included)
    | Err(error: E)         // raises an `Exception`, which the wrapper catches
    | Interrupt(error: E)   // raises a `BaseException` outside `Exception` (KeyboardInterrupt, SystemExit)

  /** How one call of the wrapper ends. */
  datatype Final<+T, +E> =
    | Returned(value: T)     // the value of the first invocation that returned
    | Reraised(error: E)     // every attempt raised; the last exception is raised again
    | Interrupted(error: E)  // an exception the wrapper does not catch escaped from an invocation
    | RaisedNone             // no attempt was made, and `raise None` itself fails with a TypeError
    | SleepRejected(reason: SleepError) // `time.sleep` refused the delay

  /** Why `time.sleep` refuses a delay. It first converts the delay to a
      signed 64-bit count of nanoseconds, raising OverflowError when the
      count does not fit, and then raises ValueError when it is negative. */
  datatype SleepError = Overflow | Negative

  /** 2^63 nanoseconds in seconds: the smallest delay whose nanosecond count
      no longer fits a signed 64-bit integer. */
  const SleepLimit: real := 9223372036.854775808

  /** `time.sleep(delay)` completes. */
  predicate SleepAccepts(delay: real)
  {
    0.0 <= delay < SleepLimit
  }

  /** The exception `time.sleep(delay)` raises for a delay it refuses. */
  function SleepFailure(delay: real): SleepError
    requires !SleepAccepts(delay)
  {
    if -SleepLimit <= delay < 0.0 then Negative else Overflow
  }

  /** Observable events of one call of the wrapper. */
  datatype Event<+E> =
    | Invoke(attempt: int)                                                // the wrapped callable is called
    | AttemptFailed(attempt: int, maxAttempts: int, error: E, delay: real) // the per-attempt failure message
    | Sleep(delay: real)                                                  // `time.sleep(delay)` completes
    | Exhausted                                                           // the "all attempts exhausted" message

  datatype Call<+T, +E> = Call(result: Final<T, E>, trace: seq<Event<E>>)

  /** The consecutive attempt numbers lo, lo + 1, ..., hi - 1. */
  function Span(lo: int, hi: int): (r: seq<int>)
    ensures |r| == if lo <= hi then hi - lo else 0
    ensures forall i :: 0 <= i < |r| ==> r[i] == lo + i
    decreases hi - lo
  {
    if lo >= hi then [] else [lo] + Span(lo + 1, hi)
  }

  /** The `for attempt in range(attempt, maxAttempts + 1)` loop, entered at
      `attempt` with `last` as the most recently caught exception. */
  function Attempts<T, E>(maxAttempts: int, delay: real, outcome: nat -> Outcome<T, E>,
                          attempt: nat, last: Option<E>): (c: Call<T, E>)
    requires 1 <= attempt
    ensures c.trace == [] <==> attempt > maxAttempts
    ensures c.trace != [] ==> c.trace[0] == Invoke(attempt)
    ensures c.result.RaisedNone? <==> attempt > maxAttempts && last.None?
    ensures c.result.SleepRejected? ==>
              attempt < maxAttempts && !SleepAccepts(delay) && c.result.reason == SleepFailure(delay)
    decreases maxAttempts + 1 - attempt
  {
    if attempt > maxAttempts then
      Call(if last.None? then RaisedNone else Reraised(last.value), [])
    else
      match outcome(attempt)
      case Ok(v) => Call(Returned(v), [Invoke(attempt)])
      case Interrupt(e) => Call(Interrupted(e), [Invoke(attempt)])
      case Err(e) =>
        if attempt < maxAttempts then
          if !SleepAccepts(delay) then
            Call(SleepRejected(SleepFailure(delay)), [Invoke(attempt)] + [AttemptFailed(attempt, maxAttempts, e, delay)])
          else
            var rest := Attempts(maxAttempts, delay, outcome, attempt + 1, Some(e));
            Call(rest.result, [Invoke(attempt)] + ([AttemptFailed(attempt, maxAttempts, e, delay)]
                                + ([Sleep(delay)] + rest.trace)))
        else
          var rest := Attempts(maxAttempts, delay, outcome, attempt + 1, Some(e));
          Call(rest.result, [Invoke(attempt)] + ([Exhausted] + rest.trace))
  }

  /** One call of a function decorated with `retry(maxAttempts, delay)`. */
  function Wrapper<T, E>(maxAttempts: int, delay: real, outcome: nat -> Outcome<T, E>): (c: Call<T, E>)
    ensures c.trace == [] <==> maxAttempts <= 0
    ensures c.trace != [] ==> c.trace[0] == Invoke(1)
    ensures c.result.RaisedNone? <==> maxAttempts <= 0
    ensures c.result.SleepRejected? ==> 2 <= maxAttempts && !SleepAccepts(delay)
  {
    Attempts(maxAttempts, delay, outcome, 1, None)
  }

  // ---------------------------------------------------------------------------
  // Reading a trace

  /** The attempt numbers the wrapped callable was invoked with, in order. */
  function Invocations<E>(trace: seq<Event<E>>): seq<int>
  {
    if trace == [] then []
    else (if trace[0].Invoke? then [trace[0].attempt] else []) + Invocations(trace[1..])
  }

  function Sleeps<E>(trace: seq<Event<E>>): nat
  {
    if trace == [] then 0 else (if trace[0].Sleep? then 1 else 0) + Sleeps(trace[1..])
  }

  /** Total time spent sleeping. */
  function SleepTime<E>(trace: seq<Event<E>>): real
  {
    if trace == [] then 0.0 else (if trace[0].Sleep? then trace[0].delay else 0.0) + SleepTime(trace[1..])
  }

  function FailureLogs<E>(trace: seq<Event<E>>): nat
  {
    if trace == [] then 0 else (if trace[0].AttemptFailed? then 1 else 0) + FailureLogs(trace[1..])
  }

  function ExhaustedLogs<E>(trace: seq<Event<E>>): nat
  {
    if trace == [] then 0 else (if trace[0].Exhausted? then 1 else 0) + ExhaustedLogs(trace[1..])
  }

  /** How each reading of a trace takes in one more event at the front. */
  lemma TraceCons<E>(e: Event<E>, t: seq<Event<E>>)
    ensures Invocations([e] + t) == (if e.Invoke? then [e.attempt] else []) + Invocations(t)
    ensures Sleeps([e] + t) == (if e.Sleep? then 1 else 0) + Sleeps(t)
    ensures SleepTime([e] + t) == (if e.Sleep? then e.delay else 0.0) + SleepTime(t)
    ensures FailureLogs([e] + t) == (if e.AttemptFailed? then 1 else 0) + FailureLogs(t)
    ensures ExhaustedLogs([e] + t) == (if e.Exhausted? then 1 else 0) + ExhaustedLogs(t)
  {
    assert ([e] + t)[1..] == t;
  }

  /** The readings of a trace that holds the single event e. */
  lemma TraceOne<E>(e: Event<E>)
    ensures Invocations([e]) == (if e.Invoke? then [e.attempt] else [])
    ensures Sleeps([e]) == (if e.Sleep? then 1 else 0)
    ensures SleepTime([e]) == (if e.Sleep? then e.delay else 0.0)
    ensures FailureLogs([e]) == (if e.AttemptFailed? then 1 else 0)
    ensures ExhaustedLogs([e]) == (if e.Exhausted? then 1 else 0)
  {
    TraceCons(e, []);
    assert [e] + [] == [e];
  }

  /** The readings of the events an attempt that raised adds before the next attempt. */
  lemma FailedAttemptTrace<E>(a: int, maxAttempts: int, e: E, delay: real, rest: seq<Event<E>>)
    ensures var t := [Invoke(a)] + ([AttemptFailed(a, maxAttempts, e, delay)] + ([Sleep(delay)] + rest));
            && Invocations(t) == [a] + Invocations(rest)
            && Sleeps(t) == 1 + Sleeps(rest)
            && SleepTime(t) == delay + SleepTime(rest)
            && FailureLogs(t) == 1 + FailureLogs(rest)
            && ExhaustedLogs(t) == ExhaustedLogs(rest)
  {
    TraceCons(Sleep(delay), rest);
    TraceCons(AttemptFailed(a, maxAttempts, e, delay), [Sleep(delay)] + rest);
    TraceCons(Invoke(a), [AttemptFailed(a, maxAttempts, e, delay)] + ([Sleep(delay)] + rest));
  }

  /** The time n sleeps of `delay` take, one after another. */
  function TotalDelay(n: nat, delay: real): real
  {
    if n == 0 then 0.0 else delay + TotalDelay(n - 1, delay)
  }

  /** n sleeps of `delay` take n times `delay`. */
  lemma {:induction false} TotalDelayIsProduct(n: nat, delay: real)
    ensures TotalDelay(n, delay) == n as real * delay
  {
    if n > 0 {
      TotalDelayIsProduct(n - 1, delay);
    }
  }

  /** A trace whose sleeps take TotalDelay(n, delay) slept n times `delay`. */
  lemma SleepTimeProduct<E>(t: seq<Event<E>>, n: nat, delay: real)
    requires SleepTime(t) == TotalDelay(n, delay)
    ensures SleepTime(t) == n as real * delay
  {
    TotalDelayIsProduct(n, delay);
  }

  // ---------------------------------------------------------------------------
  // The loop, from an arbitrary attempt on

  /** The settled result of an invocation that did not raise a caught exception. */
  function Settle<T, E>(o: Outcome<T, E>): Final<T, E>
    requires !o.Err?
  {
    match o
    case Ok(v) => Returned(v)
    case Interrupt(e) => Interrupted(e)
  }

  /** If attempts a .. k-1 raise and attempt k does not, attempt k settles the call. */
  lemma {:induction false} AttemptsStop<T, E>(maxAttempts: int, delay: real, outcome: nat -> Outcome<T, E>,
                                             a: nat, last: Option<E>, k: nat)
    requires 1 <= a <= k <= maxAttempts
    requires !outcome(k).Err?
    requires forall j :: a <= j < k ==> outcome(j).Err?
    requires SleepAccepts(delay) || k == a
    ensures var c := Attempts(maxAttempts, delay, outcome, a, last);
            && c.result == Settle(outcome(k))
            && Invocations(c.trace) == Span(a, k + 1)
            && Sleeps(c.trace) == k - a
            && FailureLogs(c.trace) == k - a
            && ExhaustedLogs(c.trace) == 0
            && SleepTime(c.trace) == TotalDelay(k - a, delay)
    decreases k - a
  {
    if a == k {
      TraceOne<E>(Invoke(a));
    } else {
      var e := outcome(a).error;
      AttemptsStop(maxAttempts, delay, outcome, a + 1, Some(e), k);
      var rest := Attempts(maxAttempts, delay, outcome, a + 1, Some(e));
      FailedAttemptTrace(a, maxAttempts, e, delay, rest.trace);
      assert Span(a, k + 1) == [a] + Span(a + 1, k + 1);
      assert TotalDelay(k - a, delay) == delay + TotalDelay(k - (a + 1), delay);
    }
  }

  /** If attempts a .. maxAttempts all raise, the last exception is raised again. */
  lemma {:induction false} AttemptsExhaust<T, E>(maxAttempts: int, delay: real, outcome: nat -> Outcome<T, E>,
                                                a: nat, last: Option<E>)
    requires 1 <= a <= maxAttempts
    requires forall j :: a <= j <= maxAttempts ==> outcome(j).Err?
    requires SleepAccepts(delay) || a == maxAttempts
    ensures var c := Attempts(maxAttempts, delay, outcome, a, last);
            && c.result == Reraised(outcome(maxAttempts).error)
            && Invocations(c.trace) == Span(a, maxAttempts + 1)
            && Sleeps(c.trace) == maxAttempts - a
            && FailureLogs(c.trace) == maxAttempts - a
            && ExhaustedLogs(c.trace) == 1
            && SleepTime(c.trace) == TotalDelay(maxAttempts - a, delay)
    decreases maxAttempts - a
  {
    var e := outcome(a).error;
    var rest := Attempts(maxAttempts, delay, outcome, a + 1, Some(e));
    if a == maxAttempts {
      assert Attempts(maxAttempts, delay, outcome, a, last)
             == Call(Reraised(e), [Invoke(a)] + ([Exhausted] + []));
      TraceOne<E>(Exhausted);
      TraceCons<E>(Invoke(a), [Exhausted]);
      var done: seq<Event<E>> := [Exhausted];
      assert done + [] == done;
    } else {
      AttemptsExhaust(maxAttempts, delay, outcome, a + 1, Some(e));
      FailedAttemptTrace(a, maxAttempts, e, delay, rest.trace);
      assert Span(a, maxAttempts + 1) == [a] + Span(a + 1, maxAttempts + 1);
      assert TotalDelay(maxAttempts - a, delay) == delay + TotalDelay(maxAttempts - (a + 1), delay);
    }
  }

  /** ... and the call's trace ends with the final attempt and the exhaustion message. */
  lemma {:induction false} AttemptsExhaustEnd<T, E>(maxAttempts: int, delay: real, outcome: nat -> Outcome<T, E>,
                                                   a: nat, last: Option<E>)
    requires 1 <= a <= maxAttempts
    requires forall j :: a <= j <= maxAttempts ==> outcome(j).Err?
    requires SleepAccepts(delay) || a == maxAttempts
    ensures var t := Attempts(maxAttempts, delay, outcome, a, last).trace;
            |t| >= 2 && t[|t| - 2..] == [Invoke(maxAttempts), Exhausted]
    decreases maxAttempts - a
  {
    var e := outcome(a).error;
    var rest := Attempts(maxAttempts, delay, outcome, a + 1, Some(e)).trace;
    if a < maxAttempts {
      AttemptsExhaustEnd(maxAttempts, delay, outcome, a + 1, Some(e));
      LastTwo([Invoke(a), AttemptFailed(a, maxAttempts, e, delay), Sleep(delay)], rest);
      assert [Invoke(a)] + ([AttemptFailed(a, maxAttempts, e, delay)] + ([Sleep(delay)] + rest))
             == [Invoke(a), AttemptFailed(a, maxAttempts, e, delay), Sleep(delay)] + rest;
    } else {
      assert [Invoke(a)] + ([Exhausted] + rest) == [Invoke(maxAttempts), Exhausted];
    }
  }

  /** The last two elements of x + r are those of r. */
  lemma LastTwo<X>(x: seq<X>, r: seq<X>)
    requires |r| >= 2
    ensures (x + r)[|x + r| - 2..] == r[|r| - 2..]
  {
    assert (x + r)[|x + r| - 2..] == [r[|r| - 2], r[|r| - 1]];
  }

  /** Whatever the outcomes, a call entered at attempt a <= maxAttempts makes
      n >= 1 consecutive invocations a .. a+n-1 within the bound, all but the
      last of which raised. */
  lemma AttemptsInvoked<T, E>(maxAttempts: int, delay: real, outcome: nat -> Outcome<T, E>,
                              a: nat, last: Option<E>)
    requires 1 <= a <= maxAttempts
    ensures var c := Attempts(maxAttempts, delay, outcome, a, last);
            var n := |Invocations(c.trace)|;
            && 1 <= n && a + n - 1 <= maxAttempts
            && Invocations(c.trace) == Span(a, a + n)
            && (forall j :: a <= j < a + n - 1 ==> outcome(j).Err?)
  {
    AttemptsCount(maxAttempts, delay, outcome, a, last);
    AttemptsSpan(maxAttempts, delay, outcome, a, last);
    AttemptsRaisedBefore(maxAttempts, delay, outcome, a, last);
  }

  /** A call entered at attempt a <= maxAttempts makes n >= 1 invocations,
      the last of which is within the bound. */
  lemma {:induction false} AttemptsCount<T, E>(maxAttempts: int, delay: real, outcome: nat -> Outcome<T, E>,
                                              a: nat, last: Option<E>)
    requires 1 <= a <= maxAttempts
    ensures var n := |Invocations(Attempts(maxAttempts, delay, outcome, a, last).trace)|;
            1 <= n && a + n - 1 <= maxAttempts
    decreases maxAttempts - a
  {
    match outcome(a)
    case Ok(_) =>
      TraceOne<E>(Invoke(a));
    case Interrupt(_) =>
      TraceOne<E>(Invoke(a));
    case Err(e) =>
      var rest := Attempts(maxAttempts, delay, outcome, a + 1, Some(e));
      if a == maxAttempts {
        TraceOne<E>(Exhausted);
        TraceCons<E>(Invoke(a), [Exhausted]);
        var done: seq<Event<E>> := [Exhausted];
        assert done + [] == done;
      } else if !SleepAccepts(delay) {
        TraceOne(AttemptFailed(a, maxAttempts, e, delay));
        TraceCons(Invoke(a), [AttemptFailed(a, maxAttempts, e, delay)]);
      } else {
        AttemptsCount(maxAttempts, delay, outcome, a + 1, Some(e));
        FailedAttemptTrace(a, maxAttempts, e, delay, rest.trace);
      }
  }

  /** The invocations of a call entered at attempt a are a, a + 1, ... in order. */
  lemma {:induction false} AttemptsSpan<T, E>(maxAttempts: int, delay: real, outcome: nat -> Outcome<T, E>,
                                             a: nat, last: Option<E>)
    requires 1 <= a
    ensures var inv := Invocations(Attempts(maxAttempts, delay, outcome, a, last).trace);
            inv == Span(a, a + |inv|)
    decreases maxAttempts + 1 - a
  {
    if a <= maxAttempts {
      match outcome(a)
      case Ok(_) =>
        TraceOne<E>(Invoke(a));
      case Interrupt(_) =>
        TraceOne<E>(Invoke(a));
      case Err(e) =>
        var rest := Attempts(maxAttempts, delay, outcome, a + 1, Some(e));
        if a == maxAttempts {
          assert rest.trace == [];
          TraceOne<E>(Exhausted);
          TraceCons<E>(Invoke(a), [Exhausted]);
          var done: seq<Event<E>> := [Exhausted];
          assert done + [] == done;
        } else if !SleepAccepts(delay) {
          TraceOne(AttemptFailed(a, maxAttempts, e, delay));
          TraceCons(Invoke(a), [AttemptFailed(a, maxAttempts, e, delay)]);
        } else {
          AttemptsSpan(maxAttempts, delay, outcome, a + 1, Some(e));
          FailedAttemptTrace(a, maxAttempts, e, delay, rest.trace);
          var m := |Invocations(rest.trace)|;
          assert Span(a, a + 1 + m) == [a] + Span(a + 1, a + 1 + m);
        }
    }
  }

  /** Every invocation of a call but the last raised an exception. */
  lemma {:induction false} AttemptsRaisedBefore<T, E>(maxAttempts: int, delay: real, outcome: nat -> Outcome<T, E>,
                                                     a: nat, last: Option<E>)
    requires 1 <= a
    ensures var c := Attempts(maxAttempts, delay, outcome, a, last);
            forall j :: a <= j < a + |Invocations(c.trace)| - 1 ==> outcome(j).Err?
    decreases maxAttempts + 1 - a
  {
    if a <= maxAttempts {
      match outcome(a)
      case Ok(_) =>
        TraceOne<E>(Invoke(a));
      case Interrupt(_) =>
        TraceOne<E>(Invoke(a));
      case Err(e) =>
        var rest := Attempts(maxAttempts, delay, outcome, a + 1, Some(e));
        if a == maxAttempts {
          assert rest.trace == [];
          TraceOne<E>(Exhausted);
          TraceCons<E>(Invoke(a), [Exhausted]);
          var done: seq<Event<E>> := [Exhausted];
          assert done + [] == done;
        } else if !SleepAccepts(delay) {
          TraceOne(AttemptFailed(a, maxAttempts, e, delay));
          TraceCons(Invoke(a), [AttemptFailed(a, maxAttempts, e, delay)]);
        } else {
          AttemptsRaisedBefore(maxAttempts, delay, outcome, a + 1, Some(e));
          FailedAttemptTrace(a, maxAttempts, e, delay, rest.trace);
        }
    }
  }

  /** ... and its result is explained by the last invocation a+n-1. */
  lemma {:induction false} AttemptsExplained<T, E>(maxAttempts: int, delay: real, outcome: nat -> Outcome<T, E>,
                                                  a: nat, last: Option<E>)
    requires 1 <= a <= maxAttempts
    ensures var c := Attempts(maxAttempts, delay, outcome, a, last);
            var n := |Invocations(c.trace)|;
            && (c.result.Returned? ==> outcome(a + n - 1) == Ok(c.result.value))
            && (c.result.Interrupted? ==> outcome(a + n - 1) == Interrupt(c.result.error))
            && (c.result.Reraised? ==> a + n - 1 == maxAttempts && outcome(maxAttempts) == Err(c.result.error))
            && (c.result.SleepRejected? ==> n == 1 && a < maxAttempts && outcome(a).Err?)
            && !c.result.RaisedNone?
            && ExhaustedLogs(c.trace) == (if c.result.Reraised? then 1 else 0)
    decreases maxAttempts - a
  {
    match outcome(a)
    case Ok(_) =>
      TraceOne<E>(Invoke(a));
    case Interrupt(_) =>
      TraceOne<E>(Invoke(a));
    case Err(e) =>
      var rest := Attempts(maxAttempts, delay, outcome, a + 1, Some(e));
      if a == maxAttempts {
        TraceOne<E>(Exhausted);
        TraceCons<E>(Invoke(a), [Exhausted]);
        var done: seq<Event<E>> := [Exhausted];
        assert done + [] == done;
      } else if !SleepAccepts(delay) {
        TraceOne(AttemptFailed(a, maxAttempts, e, delay));
        TraceCons(Invoke(a), [AttemptFailed(a, maxAttempts, e, delay)]);
      } else {
        AttemptsExplained(maxAttempts, delay, outcome, a + 1, Some(e));
        FailedAttemptTrace(a, maxAttempts, e, delay, rest.trace);
      }
  }

  /** Event i of trace t is where the wrapper would put it: a failure message
      directly follows the invocation it reports, names an attempt that raised
      with attempts remaining, and carries the call's limit and delay; a sleep
      directly follows a failure message and lasts `delay`; the exhaustion
      message directly follows the invocation of attempt `maxAttempts`, which
      raised. */
  ghost predicate EventFits<T, E>(t: seq<Event<E>>, i: int, maxAttempts: int, delay: real, outcome: nat -> Outcome<T, E>)
    requires 0 <= i < |t|
  {
    match t[i]
    case Invoke(_) => true
    case AttemptFailed(k, m, e, d) =>
      && 0 < i && t[i - 1] == Invoke(k)
      && 1 <= k < maxAttempts && m == maxAttempts && d == delay && outcome(k) == Err(e)
    case Sleep(d) =>
      && 0 < i && t[i - 1].AttemptFailed?
      && d == delay && SleepAccepts(d)
    case Exhausted =>
      && 0 < i && t[i - 1] == Invoke(maxAttempts)
      && 1 <= maxAttempts && outcome(maxAttempts).Err?
  }

  ghost predicate EventsFit<T, E>(t: seq<Event<E>>, maxAttempts: int, delay: real, outcome: nat -> Outcome<T, E>)
  {
    forall i :: 0 <= i < |t| ==> EventFits(t, i, maxAttempts, delay, outcome)
  }

  /** Every trace produced from attempt a on has its events in place and starts with an invocation. */
  lemma {:induction false} AttemptsEventsFit<T, E>(maxAttempts: int, delay: real, outcome: nat -> Outcome<T, E>,
                                                  a: nat, last: Option<E>)
    requires 1 <= a
    ensures var t := Attempts(maxAttempts, delay, outcome, a, last).trace;
            && EventsFit(t, maxAttempts, delay, outcome)
            && (t == [] || t[0] == Invoke(a))
    decreases maxAttempts + 1 - a
  {
    var t := Attempts(maxAttempts, delay, outcome, a, last).trace;
    if a <= maxAttempts && outcome(a).Err? {
      var e := outcome(a).error;
      var rest := Attempts(maxAttempts, delay, outcome, a + 1, Some(e)).trace;
      if a < maxAttempts && SleepAccepts(delay) {
        AttemptsEventsFit(maxAttempts, delay, outcome, a + 1, Some(e));
        assert t == [Invoke(a), AttemptFailed(a, maxAttempts, e, delay), Sleep(delay)] + rest;
        forall i | 3 <= i < |t|
          ensures EventFits(t, i, maxAttempts, delay, outcome)
        {
          assert EventFits(rest, i - 3, maxAttempts, delay, outcome);
          assert t[i] == rest[i - 3];
          if i > 3 {
            assert t[i - 1] == rest[i - 4];
          }
        }
        assert EventFits(t, 2, maxAttempts, delay, outcome);
        assert EventFits(t, 1, maxAttempts, delay, outcome);
        assert EventFits(t, 0, maxAttempts, delay, outcome);
      } else if a == maxAttempts {
        assert rest == [];
        assert t == [Invoke(a), Exhausted];
        assert EventFits(t, 1, maxAttempts, delay, outcome);
        assert EventFits(t, 0, maxAttempts, delay, outcome);
      } else {
        assert t == [Invoke(a), AttemptFailed(a, maxAttempts, e, delay)];
        assert EventFits(t, 1, maxAttempts, delay, outcome);
        assert EventFits(t, 0, maxAttempts, delay, outcome);
      }
    } else if a <= maxAttempts {
      assert t == [Invoke(a)];
      assert EventFits(t, 0, maxAttempts, delay, outcome);
    }
  }

  // ---------------------------------------------------------------------------
  // Properties of one call of the wrapper

  /** The wrapped callable is invoked with the consecutive attempt numbers
      1 .. n and never more often than `maxAttempts` allows. */
  lemma RetryAttemptBound<T, E>(maxAttempts: int, delay: real, outcome: nat -> Outcome<T, E>)
    ensures var n := |Invocations(Wrapper(maxAttempts, delay, outcome).trace)|;
            && Invocations(Wrapper(maxAttempts, delay, outcome).trace) == Span(1, n + 1)
            && n <= (if maxAttempts < 0 then 0 else maxAttempts)
  {
    if maxAttempts >= 1 {
      AttemptsInvoked(maxAttempts, delay, outcome, 1, None);
    }
  }

  /** If attempt k is the first that does not raise and it returns v, the
      call returns v unchanged, after exactly k invocations, k - 1 failure
      messages and k - 1 sleeps, and without the exhaustion message. */
  lemma RetryFirstSuccess<T, E>(maxAttempts: int, delay: real, outcome: nat -> Outcome<T, E>, k: nat)
    requires 1 <= k <= maxAttempts
    requires outcome(k).Ok?
    requires forall j :: 1 <= j < k ==> outcome(j).Err?
    requires SleepAccepts(delay) || k == 1
    ensures var c := Wrapper(maxAttempts, delay, outcome);
            && c.result == Returned(outcome(k).value)
            && Invocations(c.trace) == Span(1, k + 1)
            && Sleeps(c.trace) == k - 1
            && FailureLogs(c.trace) == k - 1
            && ExhaustedLogs(c.trace) == 0
            && SleepTime(c.trace) == (k - 1) as real * delay
  {
    AttemptsStop(maxAttempts, delay, outcome, 1, None, k);
    var t := Attempts(maxAttempts, delay, outcome, 1, None).trace;
    assert Wrapper(maxAttempts, delay, outcome).trace == t;
    SleepTimeProduct(t, k - 1, delay);
  }

  /** An exception the wrapper does not catch ends the call at once. */
  lemma RetryInterrupted<T, E>(maxAttempts: int, delay: real, outcome: nat -> Outcome<T, E>, k: nat)
    requires 1 <= k <= maxAttempts
    requires outcome(k).Interrupt?
    requires forall j :: 1 <= j < k ==> outcome(j).Err?
    requires SleepAccepts(delay) || k == 1
    ensures var c := Wrapper(maxAttempts, delay, outcome);
            && c.result == Interrupted(outcome(k).error)
            && Invocations(c.trace) == Span(1, k + 1)
            && Sleeps(c.trace) == k - 1
            && ExhaustedLogs(c.trace) == 0
  {
    AttemptsStop(maxAttempts, delay, outcome, 1, None, k);
  }

  /** If all `maxAttempts` attempts raise, the exception of the final attempt
      is raised again, after maxAttempts - 1 failure messages and sleeps, and
      the exhaustion message is emitted once, right after the final attempt. */
  lemma RetryAllFail<T, E>(maxAttempts: int, delay: real, outcome: nat -> Outcome<T, E>)
    requires 1 <= maxAttempts
    requires forall j :: 1 <= j <= maxAttempts ==> outcome(j).Err?
    requires SleepAccepts(delay) || maxAttempts == 1
    ensures var c := Wrapper(maxAttempts, delay, outcome);
            && c.result == Reraised(outcome(maxAttempts).error)
            && Invocations(c.trace) == Span(1, maxAttempts + 1)
            && Sleeps(c.trace) == maxAttempts - 1
            && FailureLogs(c.trace) == maxAttempts - 1
            && ExhaustedLogs(c.trace) == 1
            && SleepTime(c.trace) == (maxAttempts - 1) as real * delay
  {
    AttemptsExhaust(maxAttempts, delay, outcome, 1, None);
    AllFailTime(maxAttempts, delay, outcome);
  }

  /** ... of which the sleeps take `maxAttempts - 1` times `delay`. */
  lemma AllFailTime<T, E>(maxAttempts: int, delay: real, outcome: nat -> Outcome<T, E>)
    requires 1 <= maxAttempts
    requires forall j :: 1 <= j <= maxAttempts ==> outcome(j).Err?
    requires SleepAccepts(delay) || maxAttempts == 1
    ensures SleepTime(Wrapper(maxAttempts, delay, outcome).trace) == (maxAttempts - 1) as real * delay
  {
    AttemptsExhaust(maxAttempts, delay, outcome, 1, None);
    SleepTimeProduct(Wrapper(maxAttempts, delay, outcome).trace, maxAttempts - 1, delay);
  }

  /** When all attempts raise, the exhaustion message directly follows the final attempt and ends the trace. */
  lemma RetryExhaustedLast<T, E>(maxAttempts: int, delay: real, outcome: nat -> Outcome<T, E>)
    requires 1 <= maxAttempts
    requires forall j :: 1 <= j <= maxAttempts ==> outcome(j).Err?
    requires SleepAccepts(delay) || maxAttempts == 1
    ensures var t := Wrapper(maxAttempts, delay, outcome).trace;
            |t| >= 2 && t[|t| - 2..] == [Invoke(maxAttempts), Exhausted]
  {
    AttemptsExhaustEnd(maxAttempts, delay, outcome, 1, None);
  }

  /** With `maxAttempts <= 0` the loop body never runs: nothing is invoked or
      logged and the call ends in `raise None`. */
  lemma RetryNoAttempts<T, E>(maxAttempts: int, delay: real, outcome: nat -> Outcome<T, E>)
    requires maxAttempts <= 0
    ensures Wrapper(maxAttempts, delay, outcome) == Call(RaisedNone, [])
  {
  }

  /** A delay `time.sleep` refuses makes the first sleep fail: a first failed
      attempt with attempts remaining is logged, and the call then ends with
      the ValueError of a negative delay, or the OverflowError of a delay of
      2^63 nanoseconds or more either way. */
  lemma RetrySleepRejected<T, E>(maxAttempts: int, delay: real, outcome: nat -> Outcome<T, E>)
    requires 2 <= maxAttempts && !SleepAccepts(delay)
    requires outcome(1).Err?
    ensures var c := Wrapper(maxAttempts, delay, outcome);
            && c == Call(SleepRejected(c.result.reason), [Invoke(1), AttemptFailed(1, maxAttempts, outcome(1).error, delay)])
            && (c.result.reason == Negative <==> delay < 0.0 && delay * 1000000000.0 >= -9223372036854775808.0)
            && (c.result.reason == Overflow <==>
                  (delay * 1000000000.0 >= 9223372036854775808.0 || delay * 1000000000.0 < -9223372036854775808.0))
  {
  }

  /** Conversely, every way a call can end is explained by the outcomes:
      a returned value is that of the last invocation, all earlier ones
      having raised; a re-raised exception is that of attempt `maxAttempts`;
      `raise None` happens exactly when `maxAttempts <= 0`; and the
      exhaustion message appears exactly when the last exception is re-raised. */
  lemma RetryResultExplained<T, E>(maxAttempts: int, delay: real, outcome: nat -> Outcome<T, E>)
    ensures var c := Wrapper(maxAttempts, delay, outcome);
            var n := |Invocations(c.trace)|;
            && (forall j :: 1 <= j < n ==> outcome(j).Err?)
            && (c.result.Returned? ==> 1 <= n <= maxAttempts && outcome(n) == Ok(c.result.value))
            && (c.result.Interrupted? ==> 1 <= n <= maxAttempts && outcome(n) == Interrupt(c.result.error))
            && (c.result.Reraised? ==> n == maxAttempts && outcome(maxAttempts) == Err(c.result.error))
            && (c.result.SleepRejected? ==>
                  && n == 1 && 1 < maxAttempts && outcome(1).Err?
                  && !SleepAccepts(delay) && c.result.reason == SleepFailure(delay))
            && (c.result.RaisedNone? <==> maxAttempts <= 0)
            && (ExhaustedLogs(c.trace) > 0 <==> c.result.Reraised?)
  {
    if maxAttempts >= 1 {
      AttemptsInvoked(maxAttempts, delay, outcome, 1, None);
      AttemptsExplained(maxAttempts, delay, outcome, 1, None);
    }
  }

  /** Wherever a failure message, a sleep or the exhaustion message occurs in
      a call's trace, it is in its place: a sleep only ever follows the
      failure of an attempt before the last one and lasts `delay`, and the
      exhaustion message only follows a failed final attempt. The trace
      starts with the first invocation. */
  lemma RetryEventsInPlace<T, E>(maxAttempts: int, delay: real, outcome: nat -> Outcome<T, E>)
    ensures var t := Wrapper(maxAttempts, delay, outcome).trace;
            && EventsFit(t, maxAttempts, delay, outcome)
            && (t == [] || t[0] == Invoke(1))
  {
    AttemptsEventsFit(maxAttempts, delay, outcome, 1, None);
  }
}

/** withRetry: call an operation up to maxRetries times, sleeping for a
    backoff delay after each failure except the last, and rethrow the last
    failure when every attempt failed. */
module Retry {
  import opened Text
  import opened Backoff

  /** How one call of the operation ended: with a value or with an error. */
  datatype Completion<T, E> = Returned(value: T) | Threw(error: E)

  /** What the retry loop does that can be observed from outside: each call
      of the operation, and each sleep with its length in milliseconds. */
  datatype Event = Invoked(attempt: nat) | Slept(ms: int)

  /** Attempts 1 to k all failed. */
  predicate FailsThrough<T, E>(op: nat -> Completion<T, E>, k: nat) {
    forall a :: 1 <= a <= k ==> op(a).Threw?
  }

  /** The events of attempts 1 to k when all of them fail: each call is
      followed by a sleep, except the call of the last allowed attempt. The
      delay after attempt a uses the a-th random draw. */
  function FailedTrace(cfg: RetryConfig, random: nat -> real, k: nat): seq<Event> {
    if k == 0 then [] else FailedTrace(cfg, random, k - 1) + [Invoked(k)] + SleepAfter(cfg, random, k)
  }

  /** The sleep after failed attempt k, if any: none after the last allowed
      attempt. */
  function SleepAfter(cfg: RetryConfig, random: nat -> real, k: nat): seq<Event>
    requires k >= 1
  {
    if k < cfg.maxRetries then [Slept(BackoffDelay(cfg, k, random(k)))] else []
  }

  /** withRetry(name, fn): `op(a)` is how the a-th call of fn ends and
      `random(a)` the value Math.random() returns while the delay after
      attempt a is computed. The result is the first value returned, or the
      last error thrown (None, JavaScript's undefined, when maxRetries is 0);
      `log` lists the calls and sleeps in order. */
  method WithRetry<T, E>(cfg: RetryConfig, op: nat -> Completion<T, E>, random: nat -> real)
    returns (r: Completion<T, Option<E>>, log: seq<Event>)
    ensures r.Returned? <==> exists k :: 1 <= k <= cfg.maxRetries && op(k).Returned?
    ensures r.Returned? ==>
      exists k :: 1 <= k <= cfg.maxRetries && FailsThrough(op, k - 1) && op(k).Returned?
        && r.value == op(k).value && log == FailedTrace(cfg, random, k - 1) + [Invoked(k)]
    ensures r.Threw? ==> FailsThrough(op, cfg.maxRetries) && log == FailedTrace(cfg, random, cfg.maxRetries)
    ensures r.Threw? ==>
      r.error == if cfg.maxRetries == 0 then None else Some(op(cfg.maxRetries).error)
  {
    var lastError: Option<E> := None;
    var attempt := 1;
    log := [];
    while attempt <= cfg.maxRetries
      invariant 1 <= attempt <= cfg.maxRetries + 1
      invariant FailsThrough(op, attempt - 1)
      invariant lastError == if attempt == 1 then None else Some(op(attempt - 1).error)
      invariant log == FailedTrace(cfg, random, attempt - 1)
    {
      var outcome := op(attempt);
      log := log + [Invoked(attempt)];
      if outcome.Returned? {
        return Returned(outcome.value), log;
      }
      lastError := Some(outcome.error);
      if attempt < cfg.maxRetries {
        var delay := BackoffDelay(cfg, attempt, random(attempt));
        log := log + [Slept(delay)];
      }
      attempt := attempt + 1;
    }
    r := Threw(lastError);
  }

  // ---------------------------------------------------------------------
  // Properties of the traces
  // ---------------------------------------------------------------------

  /** The number of calls in a trace. */
  function Invocations(log: seq<Event>): nat {
    if log == [] then 0
    else Invocations(log[..|log| - 1]) + (if log[|log| - 1].Invoked? then 1 else 0)
  }

  /** The lengths of the sleeps in a trace, in order. */
  function SleepDelays(log: seq<Event>): seq<int> {
    if log == [] then []
    else
      SleepDelays(log[..|log| - 1])
      + (if log[|log| - 1].Slept? then [log[|log| - 1].ms] else [])
  }

  /** The backoff delays of attempts 1 to k, using the draws of `random`. */
  function Delays(cfg: RetryConfig, random: nat -> real, k: nat): (d: seq<int>)
    ensures |d| == k
  {
    if k == 0 then [] else Delays(cfg, random, k - 1) + [BackoffDelay(cfg, k, random(k))]
  }

  /** Appending one event adds to the counts as that event says. */
  lemma CountsAppend(log: seq<Event>, e: Event)
    ensures Invocations(log + [e]) == Invocations(log) + (if e.Invoked? then 1 else 0)
    ensures SleepDelays(log + [e]) == SleepDelays(log) + (if e.Slept? then [e.ms] else [])
  {
    assert (log + [e])[..|log|] == log;
  }

  /** The counts of a concatenation are the counts of its parts. */
  lemma {:induction false} CountsConcat(a: seq<Event>, b: seq<Event>)
    ensures Invocations(a + b) == Invocations(a) + Invocations(b)
    ensures SleepDelays(a + b) == SleepDelays(a) + SleepDelays(b)
    decreases |b|
  {
    if b == [] {
      assert a + b == a;
    } else {
      var b' := b[..|b| - 1];
      var e := b[|b| - 1];
      assert b == b' + [e];
      assert a + b == (a + b') + [e];
      CountsConcat(a, b');
      CountsAppend(a + b', e);
      CountsAppend(b', e);
    }
  }

  /** A single sleep adds no call and one delay. */
  lemma SingleSleepCounts(ms: int)
    ensures Invocations([Slept(ms)]) == 0 && SleepDelays([Slept(ms)]) == [ms]
  {
    CountsAppend([], Slept(ms));
    assert [] + [Slept(ms)] == [Slept(ms)];
  }

  /** The sleep after failed attempt k adds no call and its delay, if any. */
  lemma SleepAfterCounts(cfg: RetryConfig, random: nat -> real, k: nat)
    requires k >= 1
    ensures Invocations(SleepAfter(cfg, random, k)) == 0
    ensures SleepDelays(SleepAfter(cfg, random, k))
            == if k < cfg.maxRetries then [BackoffDelay(cfg, k, random(k))] else []
  {
    if k < cfg.maxRetries {
      SingleSleepCounts(BackoffDelay(cfg, k, random(k)));
    }
  }

  /** The events of failed attempt k: the call, then the sleep unless k is
      the last allowed attempt. */
  lemma FailedStep(cfg: RetryConfig, random: nat -> real, k: nat)
    requires k >= 1
    ensures Invocations(FailedTrace(cfg, random, k)) == Invocations(FailedTrace(cfg, random, k - 1)) + 1
    ensures SleepDelays(FailedTrace(cfg, random, k))
            == SleepDelays(FailedTrace(cfg, random, k - 1))
               + (if k < cfg.maxRetries then [BackoffDelay(cfg, k, random(k))] else [])
  {
    CallThenCounts(FailedTrace(cfg, random, k - 1), k, SleepAfter(cfg, random, k));
    SleepAfterCounts(cfg, random, k);
  }

  /** A call followed by further events, appended to a trace. */
  lemma CallThenCounts(t: seq<Event>, k: nat, w: seq<Event>)
    ensures Invocations(t + [Invoked(k)] + w) == Invocations(t) + 1 + Invocations(w)
    ensures SleepDelays(t + [Invoked(k)] + w) == SleepDelays(t) + SleepDelays(w)
  {
    CountsAppend(t, Invoked(k));
    CountsConcat(t + [Invoked(k)], w);
  }

  /** k failed attempts make k calls and sleep the backoff delays of the
      attempts before the last allowed one. */
  lemma {:induction false} FailedTraceCounts(cfg: RetryConfig, random: nat -> real, k: nat)
    requires k <= cfg.maxRetries
    ensures Invocations(FailedTrace(cfg, random, k)) == k
    ensures SleepDelays(FailedTrace(cfg, random, k))
            == Delays(cfg, random, if k < cfg.maxRetries || k == 0 then k else k - 1)
  {
    if k > 0 {
      FailedTraceCounts(cfg, random, k - 1);
      FailedStep(cfg, random, k);
      var before := SleepDelays(FailedTrace(cfg, random, k - 1));
      assert before == Delays(cfg, random, k - 1);
      if k < cfg.maxRetries {
        assert Delays(cfg, random, k) == before + [BackoffDelay(cfg, k, random(k))];
      } else {
        assert SleepDelays(FailedTrace(cfg, random, k)) == before + [];
      }
    }
  }

  /** When the first k attempts fail and attempt k+1 succeeds, k+1 calls are
      made and the k sleeps follow the backoff schedule. */
  lemma SuccessAfterFailures(cfg: RetryConfig, random: nat -> real, k: nat)
    requires k < cfg.maxRetries
    ensures Invocations(FailedTrace(cfg, random, k) + [Invoked(k + 1)]) == k + 1
    ensures SleepDelays(FailedTrace(cfg, random, k) + [Invoked(k + 1)]) == Delays(cfg, random, k)
  {
    FailedTraceCounts(cfg, random, k);
    CountsAppend(FailedTrace(cfg, random, k), Invoked(k + 1));
  }

  /** When every attempt fails, maxRetries calls are made, maxRetries - 1
      sleeps follow the backoff schedule, and nothing happens after the last
      call. */
  lemma Exhaustion(cfg: RetryConfig, random: nat -> real)
    requires cfg.maxRetries >= 1
    ensures Invocations(FailedTrace(cfg, random, cfg.maxRetries)) == cfg.maxRetries
    ensures SleepDelays(FailedTrace(cfg, random, cfg.maxRetries))
            == Delays(cfg, random, cfg.maxRetries - 1)
    ensures var t := FailedTrace(cfg, random, cfg.maxRetries);
            t != [] && t[|t| - 1] == Invoked(cfg.maxRetries)
  {
    FailedTraceCounts(cfg, random, cfg.maxRetries);
  }

  /** With the shipped settings a run that exhausts its retries sleeps four
      times, 5, 10, 20 and 40 seconds give or take 20%, and at most 90
      seconds in all. */
  lemma ShippedExhaustionSleeps(random: nat -> real)
    requires forall a :: 0.0 <= random(a) < 1.0
    ensures var d := SleepDelays(FailedTrace(RETRY_CONFIG, random, 5));
            |d| == 4 && 4000 <= d[0] <= 6000 && 8000 <= d[1] <= 12000
            && 16000 <= d[2] <= 24000 && 32000 <= d[3] <= 48000
            && d[0] + d[1] + d[2] + d[3] <= 90000
  {
    Exhaustion(RETRY_CONFIG, random);
    var d := Delays(RETRY_CONFIG, random, 4);
    DelaysAt(RETRY_CONFIG, random, 4);
    assert 4000 <= d[0] <= 6000 by {
      ShippedDelayBand(1, random(1), 5000);
    }
    assert 8000 <= d[1] <= 12000 by {
      ShippedDelayBand(2, random(2), 10000);
    }
    assert 16000 <= d[2] <= 24000 by {
      ShippedDelayBand(3, random(3), 20000);
    }
    assert 32000 <= d[3] <= 48000 by {
      ShippedDelayBand(4, random(4), 40000);
    }
  }

  /** The i-th delay of the schedule is the backoff delay of attempt i + 1. */
  lemma {:induction false} DelaysAt(cfg: RetryConfig, random: nat -> real, k: nat)
    ensures forall i :: 0 <= i < k ==> Delays(cfg, random, k)[i] == BackoffDelay(cfg, i + 1, random(i + 1))
  {
    if k > 0 {
      DelaysAt(cfg, random, k - 1);
    }
  }

  /** A shipped delay of capped length c lies within c +/- 20%. */
  lemma ShippedDelayBand(attempt: nat, random: real, c: int)
    requires 1 <= attempt <= 4 && 0.0 <= random < 1.0
    requires c == if attempt == 1 then 5000 else if attempt == 2 then 10000
                  else if attempt == 3 then 20000 else 40000
    ensures c * 8 / 10 <= BackoffDelay(RETRY_CONFIG, attempt, random) <= c * 12 / 10
  {
    CappedDelaySchedule(attempt);
    BackoffDelayBounds(RETRY_CONFIG, attempt, random);
    assert CappedDelay(RETRY_CONFIG, attempt) == c as real;
    RoundWhole(c * 8 / 10);
    RoundWhole(c * 12 / 10);
    assert (c * 8 / 10) as real == c as real * (1.0 - 0.2);
    assert (c * 12 / 10) as real == c as real * (1.0 + 0.2);
  }
}

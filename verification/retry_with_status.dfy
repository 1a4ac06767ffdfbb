/** `retryWithStatus` of `retry-with-status.ts`: call `fn` up to
    `maxAttempts` times, reporting each failure but the last through
    `onRetry` and sleeping an exponentially growing delay in between, and
    report the final failure through `onError`.

    `fn` is an oracle from the attempt number to what that attempt returns or
    throws. The callbacks and the sleeps are recorded as steps of a trace, in
    the order they happen. */
module RetryWithStatus {
  import opened Common

  const DefaultMaxAttempts := 3
  const DefaultBaseDelayMs := 1000

  /** The optional `config` argument; `None` is an absent field. */
  datatype RetryConfig = RetryConfig(maxAttempts: Option<int>, baseDelayMs: Option<int>)

  datatype Settings = Settings(maxAttempts: int, baseDelayMs: int)

  /** `getRetryConfig()`: the environment values, already parsed to
      integers, with `None` for an unset or empty variable. */
  function EnvSettings(envMaxAttempts: Option<int>, envBaseDelayMs: Option<int>): (s: Settings)
    ensures envMaxAttempts.None? ==> s.maxAttempts == DefaultMaxAttempts
    ensures envBaseDelayMs.None? ==> s.baseDelayMs == DefaultBaseDelayMs
    ensures envMaxAttempts.Some? ==> s.maxAttempts == envMaxAttempts.value
    ensures envBaseDelayMs.Some? ==> s.baseDelayMs == envBaseDelayMs.value
  {
    Settings(envMaxAttempts.GetOr(DefaultMaxAttempts), envBaseDelayMs.GetOr(DefaultBaseDelayMs))
  }

  /** `{ ...getRetryConfig(), ...config }`: each field given in `config`
      replaces the environment's. */
  function Merge(env: Settings, config: RetryConfig): (s: Settings)
    ensures config.maxAttempts.Some? ==> s.maxAttempts == config.maxAttempts.value
    ensures config.maxAttempts.None? ==> s.maxAttempts == env.maxAttempts
    ensures config.baseDelayMs.Some? ==> s.baseDelayMs == config.baseDelayMs.value
    ensures config.baseDelayMs.None? ==> s.baseDelayMs == env.baseDelayMs
  {
    Settings(config.maxAttempts.GetOr(env.maxAttempts), config.baseDelayMs.GetOr(env.baseDelayMs))
  }

  /** An empty config leaves the environment's settings; merging the same
      config twice is merging it once. */
  lemma MergeLaws(env: Settings, config: RetryConfig)
    ensures Merge(env, RetryConfig(None, None)) == env
    ensures Merge(Merge(env, config), config) == Merge(env, config)
  {
  }

  function Pow2(n: nat): (p: nat)
    ensures p >= 1
  {
    if n == 0 then 1 else 2 * Pow2(n - 1)
  }

  /** `calculateBackoffDelay(attempt, base)`: `base * 2^(attempt - 1)`. */
  function Backoff(attempt: nat, baseDelayMs: int): int
    requires attempt >= 1
  {
    baseDelayMs * Pow2(attempt - 1)
  }

  /** Each delay doubles the one before; with the default base the first two
      are one and two seconds. */
  lemma BackoffDoubles(attempt: nat, baseDelayMs: int)
    requires attempt >= 1
    ensures Backoff(1, baseDelayMs) == baseDelayMs
    ensures Backoff(attempt + 1, baseDelayMs) == 2 * Backoff(attempt, baseDelayMs)
    ensures Backoff(1, DefaultBaseDelayMs) == 1000 && Backoff(2, DefaultBaseDelayMs) == 2000
  {
  }

  /** One observable step: a call of `fn`, an `onRetry` callback, a sleep,
      or the final `onError` callback (with `null` when nothing was tried). */
  datatype Step = Call(attempt: nat) | Retry(attempt: nat, error: Error) | Sleep(ms: int) | GiveUp(lastError: Option<Error>)

  /** The value returned by the first successful attempt, or the error
      thrown once every attempt has failed. */
  datatype Outcome<T> = Succeeded(value: T, attempt: nat) | Exhausted(lastError: Option<Error>)

  datatype RetryRun<T> = RetryRun(trace: seq<Step>, outcome: Outcome<T>)

  /** The loop from attempt `attempt` on, `last` being the error of the
      previous attempt. */
  function Attempts<T>(fn: nat -> Result<T, Error>, s: Settings, attempt: nat, last: Option<Error>): RetryRun<T>
    requires attempt >= 1
    decreases if attempt <= s.maxAttempts then s.maxAttempts - attempt + 1 else 0
  {
    if attempt > s.maxAttempts then RetryRun([GiveUp(last)], Exhausted(last))
    else
      match fn(attempt)
      case Success(v) => RetryRun([Call(attempt)], Succeeded(v, attempt))
      case Failure(e) =>
        var rest := Attempts(fn, s, attempt + 1, Some(e));
        var head := if attempt < s.maxAttempts
                    then [Call(attempt), Retry(attempt, e), Sleep(Backoff(attempt, s.baseDelayMs))]
                    else [Call(attempt)];
        RetryRun(head + rest.trace, rest.outcome)
  }

  /** The whole run, as a recursive reference. */
  function Run<T>(fn: nat -> Result<T, Error>, s: Settings): RetryRun<T> {
    Attempts(fn, s, 1, None)
  }

  /** `retryWithStatus`, as the loop the code runs. */
  method RetryLoop<T>(fn: nat -> Result<T, Error>, s: Settings) returns (trace: seq<Step>, outcome: Outcome<T>)
    ensures RetryRun(trace, outcome) == Run(fn, s)
    ensures outcome.Succeeded? ==>
              && 1 <= outcome.attempt <= s.maxAttempts
              && fn(outcome.attempt) == Success(outcome.value)
              && forall i :: 1 <= i < outcome.attempt ==> fn(i).Failure?
    ensures outcome.Exhausted? ==> forall i :: 1 <= i <= s.maxAttempts ==> fn(i).Failure?
    ensures outcome.Exhausted? ==>
              (if s.maxAttempts >= 1 then outcome.lastError == Some(fn(s.maxAttempts).error)
               else outcome.lastError.None?)
  {
    var attempt: nat := 1;
    var last: Option<Error> := None;
    trace := [];
    while attempt <= s.maxAttempts
      invariant 1 <= attempt
      invariant if s.maxAttempts >= 1 then attempt <= s.maxAttempts + 1 else attempt == 1
      invariant Run(fn, s) == RetryRun(trace + Attempts(fn, s, attempt, last).trace, Attempts(fn, s, attempt, last).outcome)
      invariant forall i :: 1 <= i < attempt ==> fn(i).Failure?
      invariant attempt == 1 ==> last.None?
      invariant attempt > 1 ==> last == Some(fn(attempt - 1).error)
      decreases s.maxAttempts - attempt + 1
    {
      var r := fn(attempt);
      if r.Success? {
        trace := trace + [Call(attempt)];
        outcome := Succeeded(r.value, attempt);
        return;
      }
      var head := if attempt < s.maxAttempts
                  then [Call(attempt), Retry(attempt, r.error), Sleep(Backoff(attempt, s.baseDelayMs))]
                  else [Call(attempt)];
      assert Attempts(fn, s, attempt, last).trace == head + Attempts(fn, s, attempt + 1, Some(r.error)).trace;
      trace := trace + head;
      last := Some(r.error);
      attempt := attempt + 1;
    }
    trace := trace + [GiveUp(last)];
    outcome := Exhausted(last);
  }

  // ---------------------------------------------------------------------------
  // The traces, spelled out

  /** The steps of attempts `from..to`, each failing and followed by another
      attempt: call, `onRetry(attempt, error)`, then the backoff sleep. */
  function RetriesFrom<T>(fn: nat -> Result<T, Error>, s: Settings, from: nat, to: int): seq<Step>
    requires from >= 1
    requires forall i :: from <= i <= to ==> fn(i).Failure?
    decreases if from <= to then to - from + 1 else 0
  {
    if from > to then []
    else [Call(from), Retry(from, fn(from).error), Sleep(Backoff(from, s.baseDelayMs))] + RetriesFrom(fn, s, from + 1, to)
  }

  /** When attempt `k` is the first to succeed: the earlier attempts each
      retry after their backoff, attempt `k`'s value is returned, and
      `onError` is never called. */
  lemma {:induction false} SucceedsAt<T>(fn: nat -> Result<T, Error>, s: Settings, from: nat, last: Option<Error>, k: nat)
    requires 1 <= from <= k <= s.maxAttempts
    requires forall i :: from <= i < k ==> fn(i).Failure?
    requires fn(k).Success?
    ensures Attempts(fn, s, from, last) == RetryRun(RetriesFrom(fn, s, from, k - 1) + [Call(k)], Succeeded(fn(k).value, k))
    decreases k - from
  {
    if from < k {
      SucceedsAt(fn, s, from + 1, Some(fn(from).error), k);
    }
  }

  /** When every attempt fails: attempts `1..max-1` each retry, the last
      attempt is not followed by a sleep, and `onError` receives its error,
      which is thrown. */
  lemma {:induction false} FailsFrom<T>(fn: nat -> Result<T, Error>, s: Settings, from: nat, last: Option<Error>)
    requires 1 <= from <= s.maxAttempts
    requires forall i :: from <= i <= s.maxAttempts ==> fn(i).Failure?
    ensures var e := fn(s.maxAttempts).error;
      Attempts(fn, s, from, last)
      == RetryRun(RetriesFrom(fn, s, from, s.maxAttempts - 1) + [Call(s.maxAttempts), GiveUp(Some(e))], Exhausted(Some(e)))
    decreases s.maxAttempts - from
  {
    if from < s.maxAttempts {
      FailsFrom(fn, s, from + 1, Some(fn(from).error));
    }
  }

  lemma SuccessTrace<T>(fn: nat -> Result<T, Error>, s: Settings, k: nat)
    requires 1 <= k <= s.maxAttempts
    requires forall i :: 1 <= i < k ==> fn(i).Failure?
    requires fn(k).Success?
    ensures Run(fn, s) == RetryRun(RetriesFrom(fn, s, 1, k - 1) + [Call(k)], Succeeded(fn(k).value, k))
  {
    SucceedsAt(fn, s, 1, None, k);
  }

  lemma ExhaustedTrace<T>(fn: nat -> Result<T, Error>, s: Settings)
    requires s.maxAttempts >= 1
    requires forall i :: 1 <= i <= s.maxAttempts ==> fn(i).Failure?
    ensures var e := fn(s.maxAttempts).error;
      Run(fn, s) == RetryRun(RetriesFrom(fn, s, 1, s.maxAttempts - 1) + [Call(s.maxAttempts), GiveUp(Some(e))],
                             Exhausted(Some(e)))
  {
    FailsFrom(fn, s, 1, None);
  }

  /** A non-positive `maxAttempts` never calls `fn`, and `onError` receives
      `null`. */
  lemma NoAttempts<T>(fn: nat -> Result<T, Error>, s: Settings)
    requires s.maxAttempts <= 0
    ensures Run(fn, s) == RetryRun([GiveUp(None)], Exhausted(None))
  {
  }

  // ---------------------------------------------------------------------------
  // Reading the trace

  /** The attempts passed to `onRetry`, in order. */
  function RetriedAttempts(trace: seq<Step>): seq<nat> {
    if trace == [] then []
    else (if trace[0].Retry? then [trace[0].attempt] else []) + RetriedAttempts(trace[1..])
  }

  /** The delays slept, in order. */
  function Sleeps(trace: seq<Step>): seq<int> {
    if trace == [] then []
    else (if trace[0].Sleep? then [trace[0].ms] else []) + Sleeps(trace[1..])
  }

  function Calls(trace: seq<Step>): nat {
    if trace == [] then 0 else (if trace[0].Call? then 1 else 0) + Calls(trace[1..])
  }

  predicate NoGiveUp(trace: seq<Step>) {
    forall i :: 0 <= i < |trace| ==> !trace[i].GiveUp?
  }

  lemma {:induction false} RetriedAppend(a: seq<Step>, b: seq<Step>)
    ensures RetriedAttempts(a + b) == RetriedAttempts(a) + RetriedAttempts(b)
  {
    if a == [] {
      assert a + b == b;
    } else {
      var h := if a[0].Retry? then [a[0].attempt] else [];
      assert (a + b)[0] == a[0];
      assert (a + b)[1..] == a[1..] + b;
      RetriedAppend(a[1..], b);
      assert RetriedAttempts(a + b) == h + (RetriedAttempts(a[1..]) + RetriedAttempts(b));
      assert h + (RetriedAttempts(a[1..]) + RetriedAttempts(b)) == (h + RetriedAttempts(a[1..])) + RetriedAttempts(b);
    }
  }

  lemma {:induction false} SleepsAppend(a: seq<Step>, b: seq<Step>)
    ensures Sleeps(a + b) == Sleeps(a) + Sleeps(b)
  {
    if a == [] {
      assert a + b == b;
    } else {
      var h := if a[0].Sleep? then [a[0].ms] else [];
      assert (a + b)[0] == a[0];
      assert (a + b)[1..] == a[1..] + b;
      SleepsAppend(a[1..], b);
      assert Sleeps(a + b) == h + (Sleeps(a[1..]) + Sleeps(b));
      assert h + (Sleeps(a[1..]) + Sleeps(b)) == (h + Sleeps(a[1..])) + Sleeps(b);
    }
  }

  lemma {:induction false} CallsAppend(a: seq<Step>, b: seq<Step>)
    ensures Calls(a + b) == Calls(a) + Calls(b)
  {
    if a == [] {
      assert a + b == b;
    } else {
      assert (a + b)[1..] == a[1..] + b;
      CallsAppend(a[1..], b);
    }
  }

  /** The three readers distribute over concatenation of traces. */
  lemma ReadAppend(a: seq<Step>, b: seq<Step>)
    ensures RetriedAttempts(a + b) == RetriedAttempts(a) + RetriedAttempts(b)
    ensures Sleeps(a + b) == Sleeps(a) + Sleeps(b)
    ensures Calls(a + b) == Calls(a) + Calls(b)
  {
    RetriedAppend(a, b);
    SleepsAppend(a, b);
    CallsAppend(a, b);
  }

  lemma ReadOne(st: Step)
    ensures RetriedAttempts([st]) == if st.Retry? then [st.attempt] else []
    ensures Sleeps([st]) == if st.Sleep? then [st.ms] else []
    ensures Calls([st]) == if st.Call? then 1 else 0
  {
    assert [st][1..] == [];
  }

  /** Reading the three steps of one retried attempt. */
  lemma ReadRetried(attempt: nat, e: Error, ms: int)
    ensures RetriedAttempts([Call(attempt), Retry(attempt, e), Sleep(ms)]) == [attempt]
    ensures Sleeps([Call(attempt), Retry(attempt, e), Sleep(ms)]) == [ms]
    ensures Calls([Call(attempt), Retry(attempt, e), Sleep(ms)]) == 1
  {
    ReadOne(Call(attempt));
    ReadOne(Retry(attempt, e));
    ReadOne(Sleep(ms));
    ReadAppend([Call(attempt)], [Retry(attempt, e)]);
    ReadAppend([Call(attempt), Retry(attempt, e)], [Sleep(ms)]);
    assert [Call(attempt)] + [Retry(attempt, e)] == [Call(attempt), Retry(attempt, e)];
    assert [Call(attempt), Retry(attempt, e)] + [Sleep(ms)] == [Call(attempt), Retry(attempt, e), Sleep(ms)];
  }

  /** Attempts `from..to` report `onRetry` with exactly `from..to`, sleep
      `Backoff(from)..Backoff(to)`, call `fn` once each and never give up. */
  lemma {:induction false} RetriesFromReads<T>(fn: nat -> Result<T, Error>, s: Settings, from: nat, to: int)
    requires from >= 1
    requires forall i :: from <= i <= to ==> fn(i).Failure?
    ensures var n := if from <= to then to - from + 1 else 0;
      && RetriedAttempts(RetriesFrom(fn, s, from, to)) == seq(n, i => from + i)
      && Sleeps(RetriesFrom(fn, s, from, to)) == seq(n, i requires 0 <= i => Backoff(from + i, s.baseDelayMs))
      && Calls(RetriesFrom(fn, s, from, to)) == n
      && NoGiveUp(RetriesFrom(fn, s, from, to))
    decreases if from <= to then to - from + 1 else 0
  {
    if from <= to {
      var head := [Call(from), Retry(from, fn(from).error), Sleep(Backoff(from, s.baseDelayMs))];
      var tail := RetriesFrom(fn, s, from + 1, to);
      RetriesFromReads(fn, s, from + 1, to);
      ReadAppend(head, tail);
      ReadRetried(from, fn(from).error, Backoff(from, s.baseDelayMs));
    }
  }

  /** If attempt `k` succeeds after `k - 1` failures, `onRetry` was called
      with exactly `1..k-1`, `fn` exactly `k` times, and `onError` never. */
  lemma CallbacksOnSuccess<T>(fn: nat -> Result<T, Error>, s: Settings, k: nat)
    requires 1 <= k <= s.maxAttempts
    requires forall i :: 1 <= i < k ==> fn(i).Failure?
    requires fn(k).Success?
    ensures RetriedAttempts(Run(fn, s).trace) == seq(k - 1, i => i + 1)
    ensures Sleeps(Run(fn, s).trace) == seq(k - 1, i requires 0 <= i => Backoff(i + 1, s.baseDelayMs))
    ensures Calls(Run(fn, s).trace) == k
    ensures NoGiveUp(Run(fn, s).trace)
    ensures Run(fn, s).outcome == Succeeded(fn(k).value, k)
  {
    SuccessTrace(fn, s, k);
    var pre := RetriesFrom(fn, s, 1, k - 1);
    RetriesFromReads(fn, s, 1, k - 1);
    ReadAppend(pre, [Call(k)]);
    assert [Call(k)][1..] == [];
    assert seq(k - 1, i => 1 + i) == seq(k - 1, i => i + 1);
    assert seq(k - 1, i requires 0 <= i => Backoff(1 + i, s.baseDelayMs))
        == seq(k - 1, i requires 0 <= i => Backoff(i + 1, s.baseDelayMs));
  }

  /** If every attempt fails, `onRetry` was called with exactly
      `1..max-1`, every backoff but the last was slept, and `fn` was called
      exactly `max` times. */
  lemma CallbacksOnExhaustion<T>(fn: nat -> Result<T, Error>, s: Settings)
    requires s.maxAttempts >= 1
    requires forall i :: 1 <= i <= s.maxAttempts ==> fn(i).Failure?
    ensures RetriedAttempts(Run(fn, s).trace) == seq(s.maxAttempts - 1, i => i + 1)
    ensures Sleeps(Run(fn, s).trace) == seq(s.maxAttempts - 1, i requires 0 <= i => Backoff(i + 1, s.baseDelayMs))
    ensures Calls(Run(fn, s).trace) == s.maxAttempts
    ensures Run(fn, s).outcome == Exhausted(Some(fn(s.maxAttempts).error))
  {
    ExhaustedTrace(fn, s);
    var m := s.maxAttempts;
    var pre := RetriesFrom(fn, s, 1, m - 1);
    var post := [Call(m), GiveUp(Some(fn(m).error))];
    RetriesFromReads(fn, s, 1, m - 1);
    ReadAppend(pre, post);
    ReadOne(Call(m));
    ReadOne(GiveUp(Some(fn(m).error)));
    ReadAppend([Call(m)], [GiveUp(Some(fn(m).error))]);
    assert [Call(m)] + [GiveUp(Some(fn(m).error))] == post;
    assert seq(m - 1, i => 1 + i) == seq(m - 1, i => i + 1);
    assert seq(m - 1, i requires 0 <= i => Backoff(1 + i, s.baseDelayMs))
        == seq(m - 1, i requires 0 <= i => Backoff(i + 1, s.baseDelayMs));
  }

  /** If every attempt fails, the last attempt is followed by no sleep: the
      trace ends with that call and then the one `onError` call, which is
      the only one. */
  lemma ExhaustionEndsWithGiveUp<T>(fn: nat -> Result<T, Error>, s: Settings)
    requires s.maxAttempts >= 1
    requires forall i :: 1 <= i <= s.maxAttempts ==> fn(i).Failure?
    ensures var t := Run(fn, s).trace;
      && |t| >= 2 && t[|t| - 2] == Call(s.maxAttempts)
      && t[|t| - 1] == GiveUp(Some(fn(s.maxAttempts).error))
      && NoGiveUp(t[..|t| - 1])
  {
    ExhaustedTrace(fn, s);
    var m := s.maxAttempts;
    var pre := RetriesFrom(fn, s, 1, m - 1);
    RetriesFromReads(fn, s, 1, m - 1);
    var t := pre + [Call(m), GiveUp(Some(fn(m).error))];
    assert t[..|t| - 1] == pre + [Call(m)];
  }

  /** `fn` is never called more than `maxAttempts` times. */
  lemma {:induction false} AtMostMaxCalls<T>(fn: nat -> Result<T, Error>, s: Settings, from: nat, last: Option<Error>)
    requires from >= 1
    ensures Calls(Attempts(fn, s, from, last).trace) <= if from <= s.maxAttempts then s.maxAttempts - from + 1 else 0
    decreases if from <= s.maxAttempts then s.maxAttempts - from + 1 else 0
  {
    var t := Attempts(fn, s, from, last).trace;
    if from > s.maxAttempts {
      ReadOne(GiveUp(last));
    } else {
      match fn(from)
      case Success(v) =>
        ReadOne(Call(from));
      case Failure(e) =>
        var head := if from < s.maxAttempts
                    then [Call(from), Retry(from, e), Sleep(Backoff(from, s.baseDelayMs))]
                    else [Call(from)];
        AtMostMaxCalls(fn, s, from + 1, Some(e));
        ReadAppend(head, Attempts(fn, s, from + 1, Some(e)).trace);
        if from < s.maxAttempts {
          ReadRetried(from, e, Backoff(from, s.baseDelayMs));
        } else {
          ReadOne(Call(from));
        }
    }
  }
}

/** `WWW.get_response` (src/utils_www/WWW.py:65-85): up to `max_retries`
    attempts at an HTTP GET, with a warning and a doubling sleep between
    failed attempts and an error-level log before the last failure is
    re-raised. The HTTP call itself is an oracle, `fetch(i)` being the
    outcome of the attempt with 0-based index `i`; sleeps are recorded in
    milliseconds (the source's 0.5 s doubled is exact in binary). */
module Retry {
  import opened Config

  datatype FetchError = NetworkError(message: string) | HttpStatusError(status: int, message: string)

  datatype Response = Response(content: string)

  /** What one call of `requests.get(...)` followed by `raise_for_status()` did. */
  datatype Attempt = Succeeded(response: Response) | Failed(error: FetchError)

  /** The observable side effects of the loop, in order. A `LogWarning`
      line ends in "Retrying in <t>s..."; a `LogError` line, the only
      error-level one, ends in "Max retries reached. Aborting". */
  datatype Event =
    | LogWarning(attempt: nat, maxRetries: int, url: string, error: FetchError, retryInMs: nat)
    | Sleep(ms: nat)
    | LogError(attempt: nat, maxRetries: int, url: string, error: FetchError)

  datatype EventKind = WarningKind | SleepKind | ErrorKind

  function KindOf(e: Event): EventKind {
    match e
    case LogWarning(_, _, _, _, _) => WarningKind
    case Sleep(_) => SleepKind
    case LogError(_, _, _, _) => ErrorKind
  }

  /** How `get_response` ends: it returns a response, re-raises the last
      attempt's exception, or (the loop never running) falls off the end
      and returns None. */
  datatype Reply = Returned(response: Response) | Raised(error: FetchError) | ReturnedNone

  datatype Outcome = Outcome(reply: Reply, trace: seq<Event>, attempts: nat)

  const FirstSleepMs: nat := 500

  function Pow2(n: nat): (p: nat)
    ensures p >= 1
  {
    if n == 0 then 1 else 2 * Pow2(n - 1)
  }

  /** The sleep that follows the failed attempt with index `i`. */
  function Backoff(i: nat): (ms: nat)
    ensures ms >= FirstSleepMs
  {
    FirstSleepMs * Pow2(i)
  }

  lemma BackoffDoubles(i: nat)
    ensures Backoff(0) == 500
    ensures Backoff(i + 1) == 2 * Backoff(i)
  {
  }

  /** Reference semantics of the loop from attempt `i` on, `sleepMs` being
      the current value of `t_sleep`. */
  function RetryFrom(url: string, maxRetries: int, fetch: nat -> Attempt, i: nat, sleepMs: nat): Outcome
    decreases maxRetries - i
  {
    if maxRetries <= i then Outcome(ReturnedNone, [], i)
    else match fetch(i)
      case Succeeded(resp) => Outcome(Returned(resp), [], i + 1)
      case Failed(e) =>
        if i + 1 == maxRetries then Outcome(Raised(e), [LogError(i + 1, maxRetries, url, e)], i + 1)
        else
          var rest := RetryFrom(url, maxRetries, fetch, i + 1, 2 * sleepMs);
          Outcome(rest.reply, [LogWarning(i + 1, maxRetries, url, e, sleepMs), Sleep(sleepMs)] + rest.trace, rest.attempts)
  }

  function GetResponseSpec(w: Www, fetch: nat -> Attempt): Outcome {
    RetryFrom(w.url, w.maxRetries, fetch, 0, FirstSleepMs)
  }

  function Prepend(prefix: seq<Event>, o: Outcome): Outcome {
    Outcome(o.reply, prefix + o.trace, o.attempts)
  }

  /** `get_response`, with the attempts, log lines and sleeps it makes. */
  method GetResponse(w: Www, fetch: nat -> Attempt) returns (o: Outcome)
    ensures o == GetResponseSpec(w, fetch)
  {
    var trace: seq<Event> := [];
    var tSleep: nat := FirstSleepMs;
    var i: nat := 0;
    while i < w.maxRetries
      invariant GetResponseSpec(w, fetch) == Prepend(trace, RetryFrom(w.url, w.maxRetries, fetch, i, tSleep))
      decreases w.maxRetries - i
    {
      match fetch(i)
      case Succeeded(resp) =>
        return Outcome(Returned(resp), trace, i + 1);
      case Failed(e) =>
        if i + 1 == w.maxRetries {
          return Outcome(Raised(e), trace + [LogError(i + 1, w.maxRetries, w.url, e)], i + 1);
        }
        trace := trace + [LogWarning(i + 1, w.maxRetries, w.url, e, tSleep), Sleep(tSleep)];
        tSleep := tSleep * 2;
        i := i + 1;
    }
    return Outcome(ReturnedNone, trace, i);
  }

  /** How every run from attempt `i` on ends, whatever `t_sleep` is: None
      exactly when no attempt is left; otherwise between one and the
      remaining budget of attempts, all but the last failed, a response only
      from a successful last attempt, and the error re-raised only after the
      final allowed attempt failed, with the error line last in the trace. */
  lemma {:induction false} RetryEnd(url: string, m: int, fetch: nat -> Attempt, i: nat, sleepMs: nat)
    ensures var o := RetryFrom(url, m, fetch, i, sleepMs);
            && (o.reply.ReturnedNone? <==> m <= i)
            && (m <= i ==> o == Outcome(ReturnedNone, [], i))
            && (i < m ==> i < o.attempts <= m
                          && |o.trace| == 2 * (o.attempts - 1 - i) + (if o.reply.Raised? then 1 else 0))
            && (forall j :: i <= j < o.attempts - 1 ==> fetch(j).Failed?)
            && (o.reply.Returned? ==> fetch(o.attempts - 1) == Succeeded(o.reply.response))
            && (o.reply.Raised? ==> o.attempts == m && fetch(m - 1) == Failed(o.reply.error)
                                    && o.trace[|o.trace| - 1] == LogError(m, m, url, o.reply.error))
    decreases m - i
  {
    var o := RetryFrom(url, m, fetch, i, sleepMs);
    if m <= i || fetch(i).Succeeded? || i + 1 == m {
    } else {
      RetryEnd(url, m, fetch, i + 1, 2 * sleepMs);
      var rest := RetryFrom(url, m, fetch, i + 1, 2 * sleepMs);
      assert o.trace == [LogWarning(i + 1, m, url, fetch(i).error, sleepMs), Sleep(sleepMs)] + rest.trace;
    }
  }

  /** With `t_sleep` at its scheduled value, each failed attempt `j` before
      the last is followed by a warning naming it and a sleep of
      500·2^j ms, in that order. */
  lemma {:induction false} RetryTrace(url: string, m: int, fetch: nat -> Attempt, i: nat)
    ensures var o := RetryFrom(url, m, fetch, i, Backoff(i));
            && 2 * (o.attempts - 1 - i) <= |o.trace|
            && (forall j :: i <= j < o.attempts - 1 ==>
                  && fetch(j).Failed?
                  && o.trace[2 * (j - i)] == LogWarning(j + 1, m, url, fetch(j).error, Backoff(j))
                  && o.trace[2 * (j - i) + 1] == Sleep(Backoff(j)))
    decreases m - i
  {
    var o := RetryFrom(url, m, fetch, i, Backoff(i));
    if m <= i || fetch(i).Succeeded? || i + 1 == m {
    } else {
      BackoffDoubles(i);
      RetryTrace(url, m, fetch, i + 1);
      var rest := RetryFrom(url, m, fetch, i + 1, Backoff(i + 1));
      assert o.trace == [LogWarning(i + 1, m, url, fetch(i).error, Backoff(i)), Sleep(Backoff(i))] + rest.trace;
    }
  }

  function Count(trace: seq<Event>, kind: EventKind): nat {
    if trace == [] then 0
    else (if KindOf(trace[0]) == kind then 1 else 0) + Count(trace[1..], kind)
  }

  lemma {:induction false} CountAppend(a: seq<Event>, b: seq<Event>, kind: EventKind)
    ensures Count(a + b, kind) == Count(a, kind) + Count(b, kind)
  {
    if a == [] {
      assert a + b == b;
    } else {
      assert (a + b)[0] == a[0];
      assert (a + b)[1..] == a[1..] + b;
      CountAppend(a[1..], b, kind);
    }
  }

  /** Warnings at even positions, sleeps at odd ones, in whole pairs. */
  predicate WarnSleepPairs(trace: seq<Event>) {
    && |trace| % 2 == 0
    && forall a :: 0 <= a < |trace| ==> if a % 2 == 0 then trace[a].LogWarning? else trace[a].Sleep?
  }

  /** A trace of warning/sleep pairs holds as many warnings as sleeps, one
      per pair, and no error line. */
  lemma {:induction false} CountPairs(trace: seq<Event>)
    requires WarnSleepPairs(trace)
    ensures Count(trace, WarningKind) == |trace| / 2
    ensures Count(trace, SleepKind) == |trace| / 2
    ensures Count(trace, ErrorKind) == 0
  {
    if trace != [] {
      var rest := trace[2..];
      forall a | 0 <= a < |rest|
        ensures if a % 2 == 0 then rest[a].LogWarning? else rest[a].Sleep?
      {
        assert rest[a] == trace[a + 2];
      }
      CountPairs(rest);
      var pair := [trace[0], trace[1]];
      assert trace == pair + rest;
      assert pair[1..] == [trace[1]];
      assert [trace[1]][1..] == [];
      CountAppend(pair, rest, WarningKind);
      CountAppend(pair, rest, SleepKind);
      CountAppend(pair, rest, ErrorKind);
    }
  }

  /** How the call ends, for every oracle: None exactly when the loop cannot
      run, a response exactly when some attempt within the budget succeeds,
      the last error exactly when all of them fail; never more than
      `max_retries` attempts. */
  lemma ReplyCases(w: Www, fetch: nat -> Attempt)
    ensures var o := GetResponseSpec(w, fetch);
            var m := w.maxRetries;
            && (o.reply.ReturnedNone? <==> m <= 0)
            && (o.reply.Returned? <==> exists k :: 0 <= k < m && fetch(k).Succeeded?)
            && (o.reply.Raised? <==> 1 <= m && forall k :: 0 <= k < m ==> fetch(k).Failed?)
            && o.attempts <= (if m < 0 then 0 else m)
  {
    var o := GetResponseSpec(w, fetch);
    var m := w.maxRetries;
    RetryEnd(w.url, m, fetch, 0, FirstSleepMs);
    if o.reply.Returned? {
      assert fetch(o.attempts - 1).Succeeded?;
    }
    if o.reply.Raised? {
      forall k | 0 <= k < m ensures fetch(k).Failed? {
        if k < m - 1 { } else { assert fetch(m - 1).Failed?; }
      }
    }
  }

  /** `get_response` starts from the scheduled first sleep. */
  lemma SpecStartsAtBackoff(w: Www, fetch: nat -> Attempt)
    ensures GetResponseSpec(w, fetch) == RetryFrom(w.url, w.maxRetries, fetch, 0, Backoff(0))
  {
    BackoffDoubles(0);
  }

  /** Attempt `j` failed and was followed by its warning and a sleep of
      500·2^j ms, at positions `2j` and `2j + 1` of the trace. */
  predicate ScheduledPair(t: seq<Event>, j: nat) {
    2 * j + 1 < |t| && t[2 * j].LogWarning? && t[2 * j + 1] == Sleep(Backoff(j))
  }

  /** The trace of every run that makes at least one attempt: one scheduled
      pair per attempt before the last, then at most one more line, which
      is the error line. */
  lemma TraceLayout(url: string, m: int, fetch: nat -> Attempt)
    requires 0 < m
    ensures var o := RetryFrom(url, m, fetch, 0, Backoff(0));
            var n := o.attempts - 1;
            && 0 <= n
            && 2 * n <= |o.trace| <= 2 * n + 1
            && (|o.trace| == 2 * n + 1 ==> o.trace[2 * n].LogError?)
            && forall j :: 0 <= j < n ==> ScheduledPair(o.trace, j)
  {
    var o := RetryFrom(url, m, fetch, 0, Backoff(0));
    RetryEnd(url, m, fetch, 0, Backoff(0));
    RetryTrace(url, m, fetch, 0);
    forall j | 0 <= j < o.attempts - 1
      ensures ScheduledPair(o.trace, j)
    {
      assert fetch(j).Failed?;
    }
  }

  /** `n` scheduled pairs in a row form a warning/sleep prefix. */
  lemma PairsPrefix(t: seq<Event>, n: nat)
    requires 2 * n <= |t|
    requires forall j :: 0 <= j < n ==> ScheduledPair(t, j)
    ensures WarnSleepPairs(t[..2 * n])
  {
    forall a | 0 <= a < 2 * n
      ensures if a % 2 == 0 then t[..2 * n][a].LogWarning? else t[..2 * n][a].Sleep?
    {
      var j := a / 2;
      assert a == 2 * j + a % 2;
      assert ScheduledPair(t, j);
    }
  }

  /** A trace of `n` scheduled pairs holds `n` warnings, `n` sleeps and no
      error line. */
  lemma CountSucceededRun(t: seq<Event>, n: nat)
    requires |t| == 2 * n
    requires forall j :: 0 <= j < n ==> ScheduledPair(t, j)
    ensures Count(t, WarningKind) == n && Count(t, SleepKind) == n && Count(t, ErrorKind) == 0
  {
    PairsPrefix(t, n);
    assert t[..2 * n] == t;
    CountPairs(t);
  }

  /** `n` scheduled pairs followed by one error line: `n` warnings, `n`
      sleeps and exactly one error line. */
  lemma CountFailedRun(t: seq<Event>, n: nat)
    requires |t| == 2 * n + 1
    requires forall j :: 0 <= j < n ==> ScheduledPair(t, j)
    requires t[2 * n].LogError?
    ensures Count(t, WarningKind) == n && Count(t, SleepKind) == n && Count(t, ErrorKind) == 1
  {
    PairsPrefix(t, n);
    var pairs := t[..2 * n];
    assert t == pairs + [t[2 * n]];
    CountPairs(pairs);
    CountAppend(pairs, [t[2 * n]], WarningKind);
    CountAppend(pairs, [t[2 * n]], SleepKind);
    CountAppend(pairs, [t[2 * n]], ErrorKind);
  }

  /** If attempt `k` is the first to succeed, `get_response` returns its
      response after exactly `k` warnings and `k` sleeps of 500·2^j ms,
      logs nothing at error level and makes `k + 1` attempts. */
  lemma SucceedsAfterFailures(w: Www, fetch: nat -> Attempt, k: nat)
    requires k < w.maxRetries
    requires forall j :: 0 <= j < k ==> fetch(j).Failed?
    requires fetch(k).Succeeded?
    ensures var o := GetResponseSpec(w, fetch);
            && o.reply == Returned(fetch(k).response)
            && o.attempts == k + 1
            && |o.trace| == 2 * k
            && (forall j :: 0 <= j < k ==>
                  && o.trace[2 * j] == LogWarning(j + 1, w.maxRetries, w.url, fetch(j).error, Backoff(j))
                  && o.trace[2 * j + 1] == Sleep(Backoff(j)))
            && Count(o.trace, WarningKind) == k
            && Count(o.trace, SleepKind) == k
            && Count(o.trace, ErrorKind) == 0
  {
    SpecStartsAtBackoff(w, fetch);
    var o := RetryFrom(w.url, w.maxRetries, fetch, 0, Backoff(0));
    RetryEnd(w.url, w.maxRetries, fetch, 0, Backoff(0));
    RetryTrace(w.url, w.maxRetries, fetch, 0);
    TraceLayout(w.url, w.maxRetries, fetch);
    CountSucceededRun(o.trace, k);
  }

  /** When every allowed attempt fails, the run ends with the last error
      re-raised after all `m` attempts, the error line last. */
  lemma AllAttemptsFail(url: string, m: int, fetch: nat -> Attempt)
    requires 1 <= m
    requires forall j :: 0 <= j < m ==> fetch(j).Failed?
    ensures var o := RetryFrom(url, m, fetch, 0, Backoff(0));
            && o.reply == Raised(fetch(m - 1).error)
            && o.attempts == m
            && |o.trace| == 2 * m - 1
            && o.trace[2 * m - 2] == LogError(m, m, url, fetch(m - 1).error)
  {
    var o := RetryFrom(url, m, fetch, 0, Backoff(0));
    RetryEnd(url, m, fetch, 0, Backoff(0));
    assert fetch(o.attempts - 1).Failed?;
  }

  /** If every attempt fails, `get_response` makes exactly `max_retries`
      attempts, logs `max_retries - 1` warnings and sleeps, then exactly one
      error line ("Max retries reached"), and re-raises the last error. */
  lemma FailsAfterMaxRetries(w: Www, fetch: nat -> Attempt)
    requires 1 <= w.maxRetries
    requires forall j :: 0 <= j < w.maxRetries ==> fetch(j).Failed?
    ensures var o := GetResponseSpec(w, fetch);
            var m := w.maxRetries;
            && o.reply == Raised(fetch(m - 1).error)
            && o.attempts == m
            && |o.trace| == 2 * m - 1
            && (forall j :: 0 <= j < m - 1 ==>
                  && o.trace[2 * j] == LogWarning(j + 1, m, w.url, fetch(j).error, Backoff(j))
                  && o.trace[2 * j + 1] == Sleep(Backoff(j)))
            && o.trace[2 * m - 2] == LogError(m, m, w.url, fetch(m - 1).error)
            && Count(o.trace, WarningKind) == m - 1
            && Count(o.trace, SleepKind) == m - 1
            && Count(o.trace, ErrorKind) == 1
  {
    var m := w.maxRetries;
    SpecStartsAtBackoff(w, fetch);
    var o := RetryFrom(w.url, m, fetch, 0, Backoff(0));
    AllAttemptsFail(w.url, m, fetch);
    RetryTrace(w.url, m, fetch, 0);
    TraceLayout(w.url, m, fetch);
    CountFailedRun(o.trace, m - 1);
  }

  /** A trace laid out as scheduled pairs and at most one error line holds
      each sleep right after a warning, at the position its pair gives. */
  lemma SleepsFollowWarnings(t: seq<Event>, n: nat)
    requires 2 * n <= |t| <= 2 * n + 1
    requires |t| == 2 * n + 1 ==> t[2 * n].LogError?
    requires forall j :: 0 <= j < n ==> ScheduledPair(t, j)
    ensures forall a :: 0 <= a < |t| && t[a].Sleep? ==>
              a % 2 == 1 && t[a] == Sleep(Backoff(a / 2)) && t[a - 1].LogWarning?
  {
    forall a | 0 <= a < |t| && t[a].Sleep?
      ensures a % 2 == 1 && t[a] == Sleep(Backoff(a / 2)) && t[a - 1].LogWarning?
    {
      var j := a / 2;
      assert a == 2 * j + a % 2;
      assert ScheduledPair(t, j);
    }
  }

  /** Every sleep sits right after a warning: the `j`-th is 500·2^j ms, so
      the first is half a second and each one is twice the one before. */
  lemma SleepSchedule(w: Www, fetch: nat -> Attempt)
    ensures var o := GetResponseSpec(w, fetch);
            forall a :: 0 <= a < |o.trace| && o.trace[a].Sleep? ==>
              a % 2 == 1 && o.trace[a] == Sleep(Backoff(a / 2)) && o.trace[a - 1].LogWarning?
  {
    SpecStartsAtBackoff(w, fetch);
    var o := RetryFrom(w.url, w.maxRetries, fetch, 0, Backoff(0));
    if 0 < w.maxRetries {
      TraceLayout(w.url, w.maxRetries, fetch);
      SleepsFollowWarnings(o.trace, o.attempts - 1);
    } else {
      RetryEnd(w.url, w.maxRetries, fetch, 0, Backoff(0));
    }
  }

  /** A `max_retries` of 0 passed to the constructor is falsy, so it means
      five attempts. */
  lemma ZeroMaxRetriesMeansFive(url: string, fetch: nat -> Attempt)
    requires forall j :: 0 <= j < 5 ==> fetch(j).Failed?
    ensures GetResponseSpec(Init(url, Wrappers.None, Wrappers.None, Wrappers.None, Wrappers.Some(0)), fetch).attempts == 5
  {
    FailsAfterMaxRetries(Init(url, Wrappers.None, Wrappers.None, Wrappers.None, Wrappers.Some(0)), fetch);
  }
}

/** core/utils.py: the parent-directory helper and the two resilience
    decorators. A decorated call is modelled by the outcome its wrapped
    function produces, and the decorator's observable behaviour (sleeps,
    calls, log lines) by an event trace. */
module Utils {
  import opened Common
  import opened PosixPath

  // ---------------------------------------------------------------------
  // ensure_parent_dir
  // ---------------------------------------------------------------------

  predicate EndsWithSeparator(path: string) {
    |path| > 0 && (path[|path| - 1] == '/' || path[|path| - 1] == '\\')
  }

  /** The directory `ensure_parent_dir(path)` creates, or `None` when it
      creates nothing. A path ending in a separator names a directory and is
      created itself; any other path has its `dirname` created, which for a
      bare file name is empty, so nothing is created. */
  function EnsureParentDir(path: string): (dir: Option<string>)
    ensures path == "" ==> dir.None?
    ensures dir.Some? ==> dir.value != ""
    ensures EndsWithSeparator(path) ==> dir == Some(path)
    ensures !EndsWithSeparator(path) && dir.Some? ==>
              |dir.value| < |path| && dir.value == path[..|dir.value|]
    ensures !EndsWithSeparator(path) && (forall i :: 0 <= i < |path| ==> path[i] != '/') ==>
              dir.None?
    ensures !EndsWithSeparator(path) && (exists i :: 0 <= i < |path| && path[i] == '/') ==>
              dir == Some(Dirname(path))
  {
    if path == "" then None
    else if EndsWithSeparator(path) then Some(path)
    else
      var parent := Dirname(path);
      assert (exists i :: 0 <= i < |path| && path[i] == '/') ==> parent != "" by {
        if exists i :: 0 <= i < |path| && path[i] == '/' {
          DirnameWithSlash(path);
        }
      }
      assert parent != "" ==> |parent| < |path|;
      if parent != "" then Some(parent) else None
  }

  /** For a file inside a directory, the directory is what gets created. */
  lemma EnsureParentDirOfFile(d: string, name: string)
    requires d != "" && d[|d| - 1] != '/'
    requires name != "" && name[|name| - 1] != '\\'
    requires forall i :: 0 <= i < |name| ==> name[i] != '/'
    ensures EnsureParentDir(d + "/" + name) == Some(d)
  {
    DirnameOfJoin(d, name);
    var p := d + "/" + name;
    assert p[|p| - 1] == name[|name| - 1];
  }

  // ---------------------------------------------------------------------
  // rate_limit
  // ---------------------------------------------------------------------

  /** What a rate-limited call does, in order. */
  datatype RateEvent = Slept(seconds: real) | Called

  datatype Limited<T> = Limited(events: seq<RateEvent>, result: Outcome<T>)

  /** Seconds spent sleeping before the first call in `events`: the earliest
      time, relative to entering the wrapper, at which the wrapped function runs. */
  function DelayBeforeCall(events: seq<RateEvent>): real {
    if events == [] || events[0].Called? then 0.0
    else events[0].seconds + DelayBeforeCall(events[1..])
  }

  function CallCount(events: seq<RateEvent>): nat {
    if events == [] then 0
    else (if events[0].Called? then 1 else 0) + CallCount(events[1..])
  }

  /** `rate_limit(seconds)(f)()`, where `call` is what `f()` does. The wrapped
      function runs exactly once, after a pause of exactly `seconds` when that
      is positive and at once otherwise, and its outcome (value or exception)
      is passed through unchanged. */
  function RateLimit<T>(seconds: real, call: Outcome<T>): (r: Limited<T>)
    ensures r.result == call
    ensures CallCount(r.events) == 1 && r.events[|r.events| - 1] == Called
    ensures DelayBeforeCall(r.events) == if seconds > 0.0 then seconds else 0.0
    ensures |r.events| == if seconds > 0.0 then 2 else 1
  {
    if seconds > 0.0 then
      var events := [Slept(seconds), Called];
      assert events[1..] == [Called];
      assert CallCount([Called]) == 1;
      Limited(events, call)
    else Limited([Called], call)
  }

  // ---------------------------------------------------------------------
  // retry
  // ---------------------------------------------------------------------

  /** Log lines of a retried call: one warning per failed attempt, tagged with
      the attempt number, and a final error once every attempt has failed. */
  datatype RetryLog = AttemptFailed(attempt: nat) | AllAttemptsFailed

  /** The outcome the caller sees, how many times the wrapped function ran,
      and what was logged. */
  datatype Retried<T> = Retried(result: Outcome<T>, calls: nat, log: seq<RetryLog>)

  /** The attempt raised one of the exception classes `retry` was told to catch. */
  predicate Caught<T>(exceptions: set<string>, o: Outcome<T>) {
    o.Raise? && o.exn.kind in exceptions
  }

  /** Warnings for attempts `lo`, `lo + 1`, ..., `hi - 1`. */
  function Warnings(lo: nat, hi: nat): (w: seq<RetryLog>)
    requires lo <= hi
    ensures |w| == hi - lo
    ensures forall i :: 0 <= i < |w| ==> w[i] == AttemptFailed(lo + i)
    decreases hi - lo
  {
    if lo == hi then [] else [AttemptFailed(lo)] + Warnings(lo + 1, hi)
  }

  /** Attempts `attempt..times` of the retry loop; `call(k)` is what the
      k-th call of the wrapped function does. */
  function Attempts<T>(times: nat, exceptions: set<string>, call: nat -> Outcome<T>, attempt: nat)
    : (r: Retried<T>)
    requires 1 <= attempt <= times
    ensures attempt <= r.calls <= times
    ensures forall k :: attempt <= k < r.calls ==> Caught(exceptions, call(k))
    ensures r.calls < times ==> !Caught(exceptions, call(r.calls))
    ensures r.result == call(r.calls)
    ensures Caught(exceptions, call(r.calls)) ==>
              r.log == Warnings(attempt, r.calls + 1) + [AllAttemptsFailed]
    ensures !Caught(exceptions, call(r.calls)) ==> r.log == Warnings(attempt, r.calls)
    decreases times - attempt
  {
    var o := call(attempt);
    if !Caught(exceptions, o) then Retried(o, attempt, [])
    else if attempt == times then Retried(o, attempt, [AttemptFailed(attempt), AllAttemptsFailed])
    else
      var rest := Attempts(times, exceptions, call, attempt + 1);
      Retried(rest.result, rest.calls, [AttemptFailed(attempt)] + rest.log)
  }

  /** `retry(times, exceptions)(f)()`. The wrapped function is called until an
      attempt returns or raises something not listed in `exceptions`, and at
      most `times` times; the caller sees exactly what the last call did, so
      an exhausted retry re-raises the last caught exception. With no attempt
      at all (`times <= 0`) there is no exception to re-raise: the error is
      logged and `raise None` itself fails with a TypeError. */
  function Retry<T>(times: int, exceptions: set<string>, call: nat -> Outcome<T>): (r: Retried<T>)
    ensures times < 1 ==> r == Retried(Raise(Exn("TypeError")), 0, [AllAttemptsFailed])
    ensures times >= 1 ==> 1 <= r.calls <= times
    ensures forall k :: 1 <= k < r.calls ==> Caught(exceptions, call(k))
    ensures r.calls < times ==> !Caught(exceptions, call(r.calls))
    ensures times >= 1 ==> r.result == call(r.calls)
    ensures times >= 1 && Caught(exceptions, call(r.calls)) ==>
              r.log == Warnings(1, r.calls + 1) + [AllAttemptsFailed]
    ensures times >= 1 && !Caught(exceptions, call(r.calls)) ==> r.log == Warnings(1, r.calls)
  {
    if times < 1 then Retried(Raise(Exn("TypeError")), 0, [AllAttemptsFailed])
    else Attempts(times, exceptions, call, 1)
  }

  /** The first successful attempt wins, and nothing is called after it. */
  lemma RetryFirstSuccess<T>(times: nat, exceptions: set<string>, call: nat -> Outcome<T>, k: nat)
    requires 1 <= k <= times
    requires call(k).Ok?
    requires forall j :: 1 <= j < k ==> Caught(exceptions, call(j))
    ensures Retry(times, exceptions, call) == Retried(call(k), k, Warnings(1, k))
  {
  }

  /** When all `times` attempts raise caught exceptions, the wrapped function
      ran exactly `times` times, each attempt logged a warning, and the last
      exception reaches the caller. */
  lemma RetryExhausted<T>(times: nat, exceptions: set<string>, call: nat -> Outcome<T>)
    requires times >= 1
    requires forall j :: 1 <= j <= times ==> Caught(exceptions, call(j))
    ensures Retry(times, exceptions, call)
            == Retried(call(times), times, Warnings(1, times + 1) + [AllAttemptsFailed])
  {
  }

  /** An exception not listed in `exceptions` escapes from the attempt that
      raised it, with no further attempt. */
  lemma RetryUncaughtPropagates<T>(times: nat, exceptions: set<string>, call: nat -> Outcome<T>, k: nat)
    requires 1 <= k <= times
    requires call(k).Raise? && call(k).exn.kind !in exceptions
    requires forall j :: 1 <= j < k ==> Caught(exceptions, call(j))
    ensures Retry(times, exceptions, call) == Retried(call(k), k, Warnings(1, k))
  {
  }

  /** Two failures then a success: three attempts return the success, two
      attempts re-raise the second failure. */
  lemma RetryTwoFailuresThenSuccess(call: nat -> Outcome<string>)
    requires call(1) == Raise(Exn("Timeout")) && call(2) == Raise(Exn("Timeout"))
    requires call(3) == Ok("page")
    ensures Retry(3, {"Timeout"}, call).result == Ok("page")
    ensures Retry(3, {"Timeout"}, call).calls == 3
    ensures Retry(2, {"Timeout"}, call).result == Raise(Exn("Timeout"))
    ensures Retry(2, {"Timeout"}, call).calls == 2
  {
  }
}

/** The retry-with-backoff executor `robust_request`, found twice in the
    repository (integrations/google/gmail/utils.py and the older
    connectors/gmail/connector.py). The request function is given by what its
    n-th invocation does; the sleeps are recorded by their integral part
    2^attempt (the uniform jitter in [0, 1) is not modelled). */
module Backoff {
  import opened Common

  /** What one invocation of the request function does. */
  datatype Outcome<+T> = Returns(value: T) | RaisesHttp(status: int) | RaisesOther(name: string)

  /** The two copies differ only in the exception raised when attempts run out. */
  datatype Copy = Integration | Connector

  const DefaultMaxRetries: int := 5

  function Terminal(copy: Copy): Exception
  {
    match copy
    case Integration => TimeoutError
    case Connector => MaxRetriesExceeded
  }

  /** How robust_request treats an HTTP status. */
  datatype Class = Transient | AuthFatal | Fatal

  function Classify(status: int): Class
  {
    if status == 429 || status == 500 || status == 503 then Transient
    else if status == 401 || status == 403 then AuthFatal
    else Fatal
  }

  predicate IsTransient<T>(o: Outcome<T>)
  {
    o.RaisesHttp? && Classify(o.status) == Transient
  }

  /** The log lines written by robust_request. */
  datatype LogLine =
    | RetryWarning(status: int, delayBase: nat)
    | AuthenticationError(status: int)
    | UnexpectedError(status: int)
    | GaveUp

  /** Everything one call of robust_request produces: its result, how many times it
      invoked the request function, the sleeps it took (integral parts) and its log. */
  datatype Run<+T> = Run(result: Result<T>, calls: nat, sleeps: seq<nat>, log: seq<LogLine>)

  /** What robust_request does from the given attempt number on. */
  function Attempts<T>(call: nat -> Outcome<T>, maxRetries: int, copy: Copy, attempt: nat): Run<T>
    decreases maxRetries - attempt
  {
    if maxRetries <= attempt then Run(Raised(Terminal(copy)), 0, [], [GaveUp])
    else
      match call(attempt)
      case Returns(v) => Run(Ok(v), 1, [], [])
      case RaisesOther(n) => Run(Raised(ForeignError(n)), 1, [], [])
      case RaisesHttp(s) =>
        match Classify(s)
        case Transient =>
          var rest := Attempts(call, maxRetries, copy, attempt + 1);
          Run(rest.result, rest.calls + 1, [Pow2(attempt)] + rest.sleeps, [RetryWarning(s, Pow2(attempt))] + rest.log)
        case AuthFatal => Run(Raised(HttpError(s)), 1, [], [AuthenticationError(s)])
        case Fatal => Run(Raised(HttpError(s)), 1, [], [UnexpectedError(s)])
  }

  /** What one call of robust_request does. */
  function RobustRequestSpec<T>(call: nat -> Outcome<T>, maxRetries: int, copy: Copy): Run<T>
  {
    Attempts(call, maxRetries, copy, 0)
  }

  /** The integral parts 2^0, 2^1, ... of the first k backoff delays. */
  function Backoffs(k: nat): (r: seq<nat>)
  {
    seq(k, j requires 0 <= j => Pow2(j))
  }

  /** The warnings logged for the first k attempts when all of them failed transiently. */
  function Warnings<T>(call: nat -> Outcome<T>, k: nat): seq<LogLine>
    requires forall j :: 0 <= j < k ==> IsTransient(call(j))
  {
    assert forall j :: 0 <= j < k ==> call(j).RaisesHttp? by {
      forall j | 0 <= j < k ensures call(j).RaisesHttp? { assert IsTransient(call(j)); }
    }
    seq(k, j requires 0 <= j < k && call(j).RaisesHttp? => RetryWarning(call(j).status, Pow2(j)))
  }

  /** The loop of robust_request: one invocation per attempt, a sleep after each
      transient failure, an immediate re-raise of any other failure. */
  method RobustRequest<T>(call: nat -> Outcome<T>, maxRetries: int := DefaultMaxRetries, copy: Copy := Integration)
    returns (result: Result<T>, calls: nat, sleeps: seq<nat>, log: seq<LogLine>)
    ensures Run(result, calls, sleeps, log) == RobustRequestSpec(call, maxRetries, copy)
  {
    calls, sleeps, log := 0, [], [];
    var attempt: nat := 0;
    while attempt < maxRetries
      invariant calls == attempt
      invariant forall j :: 0 <= j < attempt ==> IsTransient(call(j))
      invariant attempt <= maxRetries || (attempt == 0 && maxRetries <= 0)
      invariant sleeps == Backoffs(attempt)
      invariant log == Warnings(call, attempt)
      decreases maxRetries - attempt
    {
      var outcome := call(attempt);
      calls := calls + 1;
      match outcome {
        case Returns(v) =>
          result := Ok(v);
          TransientPrefix(call, maxRetries, copy, attempt);
          return;
        case RaisesOther(n) =>
          result := Raised(ForeignError(n));
          TransientPrefix(call, maxRetries, copy, attempt);
          return;
        case RaisesHttp(s) =>
          match Classify(s) {
            case Transient =>
              sleeps := sleeps + [Pow2(attempt)];
              log := log + [RetryWarning(s, Pow2(attempt))];
            case AuthFatal =>
              log := log + [AuthenticationError(s)];
              result := Raised(HttpError(s));
              TransientPrefix(call, maxRetries, copy, attempt);
              return;
            case Fatal =>
              log := log + [UnexpectedError(s)];
              result := Raised(HttpError(s));
              TransientPrefix(call, maxRetries, copy, attempt);
              return;
          }
      }
      attempt := attempt + 1;
    }
    log := log + [GaveUp];
    result := Raised(Terminal(copy));
    TransientPrefix(call, maxRetries, copy, attempt);
  }

  /** Unfolding the transient attempts before attempt k. */
  lemma {:induction false} TransientPrefix<T>(call: nat -> Outcome<T>, maxRetries: int, copy: Copy, k: nat)
    requires forall j :: 0 <= j < k ==> IsTransient(call(j))
    requires k <= maxRetries || (k == 0 && maxRetries <= 0)
    ensures var whole := Attempts(call, maxRetries, copy, 0);
            var rest := Attempts(call, maxRetries, copy, k);
            && whole.result == rest.result
            && whole.calls == k + rest.calls
            && whole.sleeps == Backoffs(k) + rest.sleeps
            && whole.log == Warnings(call, k) + rest.log
    decreases k
  {
    if k > 0 {
      TransientPrefix(call, maxRetries, copy, k - 1);
      AttemptsRetry(call, maxRetries, copy, k - 1);
      var rest := Attempts(call, maxRetries, copy, k);
      var w := [RetryWarning(call(k - 1).status, Pow2(k - 1))];
      BackoffsGrow(k);
      WarningsGrow(call, k);
      ConcatAssoc(Backoffs(k - 1), [Pow2(k - 1)], rest.sleeps);
      ConcatAssoc(Warnings(call, k - 1), w, rest.log);
    }
  }

  lemma ConcatAssoc<X>(a: seq<X>, b: seq<X>, c: seq<X>)
    ensures a + (b + c) == (a + b) + c
  {
  }

  lemma BackoffsGrow(k: nat)
    requires k > 0
    ensures Backoffs(k) == Backoffs(k - 1) + [Pow2(k - 1)]
  {
  }

  lemma WarningsGrow<T>(call: nat -> Outcome<T>, k: nat)
    requires k > 0 && forall j :: 0 <= j < k ==> IsTransient(call(j))
    ensures Warnings(call, k) == Warnings(call, k - 1) + [RetryWarning(call(k - 1).status, Pow2(k - 1))]
  {
  }

  /** A transient failure on attempt k is logged, followed by a sleep of 2^k, and
      the loop goes on with attempt k + 1. */
  lemma AttemptsRetry<T>(call: nat -> Outcome<T>, maxRetries: int, copy: Copy, k: nat)
    requires k < maxRetries && IsTransient(call(k))
    ensures var rest := Attempts(call, maxRetries, copy, k + 1);
            Attempts(call, maxRetries, copy, k)
              == Run(rest.result, rest.calls + 1, [Pow2(k)] + rest.sleeps, [RetryWarning(call(k).status, Pow2(k))] + rest.log)
  {
  }

  /** If the request first succeeds on attempt k < maxRetries, its value is returned
      after exactly k + 1 calls and one sleep per earlier attempt, of 2^0, ..., 2^(k-1). */
  lemma {:induction false} ReturnsFirstSuccess<T>(call: nat -> Outcome<T>, maxRetries: int, copy: Copy, k: nat)
    requires k < maxRetries
    requires forall j :: 0 <= j < k ==> IsTransient(call(j))
    requires call(k).Returns?
    ensures var r := RobustRequestSpec(call, maxRetries, copy);
            && r.result == Ok(call(k).value)
            && r.calls == k + 1
            && r.sleeps == Backoffs(k)
            && r.log == Warnings(call, k)
  {
    TransientPrefix(call, maxRetries, copy, k);
  }

  /** A 401 or 403 is re-raised on the attempt where it occurs: no sleep for it and no further call. */
  lemma {:induction false} ReraisesAuthenticationError<T>(call: nat -> Outcome<T>, maxRetries: int, copy: Copy, k: nat)
    requires k < maxRetries
    requires forall j :: 0 <= j < k ==> IsTransient(call(j))
    requires call(k).RaisesHttp? && (call(k).status == 401 || call(k).status == 403)
    ensures var r := RobustRequestSpec(call, maxRetries, copy);
            && r.result == Raised(HttpError(call(k).status))
            && r.calls == k + 1
            && r.sleeps == Backoffs(k)
            && r.log == Warnings(call, k) + [AuthenticationError(call(k).status)]
  {
    TransientPrefix(call, maxRetries, copy, k);
  }

  /** Any status other than 429, 500, 503, 401 and 403 is re-raised at once, without retry. */
  lemma {:induction false} ReraisesUnexpectedStatus<T>(call: nat -> Outcome<T>, maxRetries: int, copy: Copy, k: nat)
    requires k < maxRetries
    requires forall j :: 0 <= j < k ==> IsTransient(call(j))
    requires call(k).RaisesHttp? && call(k).status !in {429, 500, 503, 401, 403}
    ensures var r := RobustRequestSpec(call, maxRetries, copy);
            && r.result == Raised(HttpError(call(k).status))
            && r.calls == k + 1
            && r.sleeps == Backoffs(k)
            && r.log == Warnings(call, k) + [UnexpectedError(call(k).status)]
  {
    TransientPrefix(call, maxRetries, copy, k);
  }

  /** An exception that is not an HttpError propagates on its first occurrence. */
  lemma {:induction false} PropagatesForeignError<T>(call: nat -> Outcome<T>, maxRetries: int, copy: Copy, k: nat)
    requires k < maxRetries
    requires forall j :: 0 <= j < k ==> IsTransient(call(j))
    requires call(k).RaisesOther?
    ensures var r := RobustRequestSpec(call, maxRetries, copy);
            && r.result == Raised(ForeignError(call(k).name))
            && r.calls == k + 1
            && r.sleeps == Backoffs(k)
            && r.log == Warnings(call, k)
  {
    TransientPrefix(call, maxRetries, copy, k);
  }

  /** When every permitted attempt fails transiently, the request function was called
      max(0, maxRetries) times, each failure (the last one included) was followed by one
      sleep, and the copy's terminal error is raised. */
  lemma {:induction false} GivesUpWhenAttemptsRunOut<T>(call: nat -> Outcome<T>, maxRetries: int, copy: Copy)
    requires forall j :: 0 <= j < maxRetries ==> IsTransient(call(j))
    ensures var r := RobustRequestSpec(call, maxRetries, copy);
            && r.result == Raised(Terminal(copy))
            && r.calls == Max(0, maxRetries)
            && r.sleeps == Backoffs(Max(0, maxRetries))
            && r.log == Warnings(call, Max(0, maxRetries)) + [GaveUp]
  {
    TransientPrefix(call, maxRetries, copy, Max(0, maxRetries));
  }

  /** The shape of every run, whatever the request function does. */
  lemma {:induction false} RunShape<T>(call: nat -> Outcome<T>, maxRetries: int, copy: Copy)
    ensures var r := RobustRequestSpec(call, maxRetries, copy);
            && r.calls <= Max(0, maxRetries)
            && r.sleeps == Backoffs(|r.sleeps|)
            && (forall i :: 0 < i < |r.sleeps| ==> r.sleeps[i] == 2 * r.sleeps[i - 1])
            && (r.result == Raised(Terminal(copy)) ==> r.calls == |r.sleeps| == Max(0, maxRetries))
            && (r.result != Raised(Terminal(copy)) ==> r.calls == |r.sleeps| + 1)
            && (forall s :: r.result == Raised(HttpError(s)) ==> Classify(s) != Transient)
  {
    AttemptsShape(call, maxRetries, copy, 0);
    var r := RobustRequestSpec(call, maxRetries, copy);
    assert r.sleeps == Backoffs(|r.sleeps|);
  }

  lemma {:induction false} AttemptsShape<T>(call: nat -> Outcome<T>, maxRetries: int, copy: Copy, a: nat)
    ensures var r := Attempts(call, maxRetries, copy, a);
            && r.calls <= Max(0, maxRetries - a)
            && (forall i :: 0 <= i < |r.sleeps| ==> r.sleeps[i] == Pow2(a + i))
            && (r.result == Raised(Terminal(copy)) ==> r.calls == |r.sleeps| == Max(0, maxRetries - a))
            && (r.result != Raised(Terminal(copy)) ==> r.calls == |r.sleeps| + 1)
            && (forall s :: r.result == Raised(HttpError(s)) ==> Classify(s) != Transient)
    decreases maxRetries - a
  {
    if a < maxRetries && IsTransient(call(a)) {
      AttemptsShape(call, maxRetries, copy, a + 1);
      var rest := Attempts(call, maxRetries, copy, a + 1);
      var r := Attempts(call, maxRetries, copy, a);
      assert r.sleeps == [Pow2(a)] + rest.sleeps;
      forall i | 0 <= i < |r.sleeps| ensures r.sleeps[i] == Pow2(a + i) {
        if i > 0 { assert r.sleeps[i] == rest.sleeps[i - 1]; }
      }
    }
  }

  /** The two copies make the same calls, sleeps and log lines; their results agree
      except that where the integrations copy raises TimeoutError the connector copy
      raises the plain "Max retries exceeded" exception. */
  lemma {:induction false} CopiesDifferOnlyInTerminalError<T>(call: nat -> Outcome<T>, maxRetries: int, a: nat)
    ensures var i := Attempts(call, maxRetries, Integration, a);
            var c := Attempts(call, maxRetries, Connector, a);
            && i.calls == c.calls && i.sleeps == c.sleeps && i.log == c.log
            && (i.result == c.result || (i.result == Raised(TimeoutError) && c.result == Raised(MaxRetriesExceeded)))
    decreases maxRetries - a
  {
    if a < maxRetries && IsTransient(call(a)) {
      CopiesDifferOnlyInTerminalError(call, maxRetries, a + 1);
    }
  }

  /** A returned value is the value of the first invocation that did not fail
      transiently, and that invocation is one of the permitted attempts: the converse
      of `ReturnsFirstSuccess`. */
  lemma {:induction false} ReturnedValueComesFromACall<T>(call: nat -> Outcome<T>, maxRetries: int, copy: Copy, a: nat)
    requires Attempts(call, maxRetries, copy, a).result.Ok?
    ensures exists j: nat :: a <= j < maxRetries && call(j).Returns?
                             && call(j).value == Attempts(call, maxRetries, copy, a).result.value
                             && forall i :: a <= i < j ==> IsTransient(call(i))
    decreases maxRetries - a
  {
    var v := Attempts(call, maxRetries, copy, a).result.value;
    if call(a).Returns? {
      assert a < maxRetries && call(a).value == v;
    } else {
      assert a < maxRetries && IsTransient(call(a));
      assert Attempts(call, maxRetries, copy, a + 1).result.value == v;
      ReturnedValueComesFromACall(call, maxRetries, copy, a + 1);
      var j: nat :| a + 1 <= j < maxRetries && call(j).Returns? && call(j).value == v
                    && forall i :: a + 1 <= i < j ==> IsTransient(call(i));
      assert forall i :: a <= i < j ==> IsTransient(call(i));
    }
  }
}

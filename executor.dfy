/** The retry executor `_make_mailtm_request` (mailtm.py:13-35).

    The request function is replaced by the sequence of outcomes its successive calls
    produce, and the wall-clock budget by fuel: the executor is given exactly the
    outcomes of the attempts that begin before the deadline, so `|o|` attempts at most
    can run. Each `time.sleep(1.0)` is counted as one wait. */
module Executor {
  import opened Outcomes

  /** Status 200 or 201: the body is returned at once (mailtm.py:21-22). */
  predicate IsSuccess<T>(a: Attempt<T>) {
    a.Reply? && (a.status == 200 || a.status == 201)
  }

  /** An attempt after which the loop sleeps and tries again: a caught transport
      exception, or status 429 (mailtm.py:23-27). */
  predicate Retryable<T>(a: Attempt<T>) {
    a.Transport? || a.status == 429
  }

  /** The index of the first attempt that ends the loop (a success or any status other
      than 429), or `|o|` when every admitted attempt is retried. */
  function Stop<T>(o: seq<Attempt<T>>): (k: nat)
    ensures k <= |o|
    ensures forall j :: 0 <= j < k ==> Retryable(o[j])
    ensures k < |o| ==> !Retryable(o[k])
  {
    if o == [] || !Retryable(o[0]) then 0 else 1 + Stop(o[1..])
  }

  /** The number of attempts the loop runs: up to and including the stopping one, or
      the whole budget. */
  function Made<T>(o: seq<Attempt<T>>): (n: nat)
    ensures n <= |o|
  {
    if Stop(o) < |o| then Stop(o) + 1 else |o|
  }

  /** The position of the last transport exception among the attempts `s`, or -1 when
      there is none. */
  function LastTransportAt<T>(s: seq<Attempt<T>>): (k: int)
    ensures -1 <= k < |s|
    ensures k >= 0 ==> s[k].Transport?
    ensures forall i :: k < i < |s| ==> s[i].Reply?
  {
    if s == [] then -1
    else if s[|s| - 1].Transport? then |s| - 1
    else LastTransportAt(s[..|s| - 1])
  }

  /** The cause of the last transport exception among the attempts `s`: the value the
      variable `error` holds after them (mailtm.py:15, 25-26). */
  function LastTransport<T>(s: seq<Attempt<T>>): (e: Option<TransportError>)
    ensures e.None? <==> forall j :: 0 <= j < |s| ==> s[j].Reply?
    ensures e.Some? ==>
      exists j :: 0 <= j < |s| && s[j] == Transport(e.value) &&
        forall i :: j < i < |s| ==> s[i].Reply?
  {
    var k := LastTransportAt(s);
    if k < 0 then None else Some(s[k].cause)
  }

  /** The position of the last response among the attempts `s`, or -1 when there is
      none. */
  function LastStatusAt<T>(s: seq<Attempt<T>>): (k: int)
    ensures -1 <= k < |s|
    ensures k >= 0 ==> s[k].Reply?
    ensures forall i :: k < i < |s| ==> s[i].Transport?
  {
    if s == [] then -1
    else if s[|s| - 1].Reply? then |s| - 1
    else LastStatusAt(s[..|s| - 1])
  }

  /** The status of the last response among the attempts `s`: the value the variable
      `status_code` holds after them (mailtm.py:16, 20). */
  function LastStatus<T>(s: seq<Attempt<T>>): (c: Option<int>)
    ensures c.None? <==> forall j :: 0 <= j < |s| ==> s[j].Transport?
    ensures c.Some? ==>
      exists j :: 0 <= j < |s| && s[j].Reply? && s[j].status == c.value &&
        forall i :: j < i < |s| ==> s[i].Transport?
  {
    var k := LastStatusAt(s);
    if k < 0 then None else Some(s[k].status)
  }

  /** The error raised after the loop (mailtm.py:29-35) from the values of `error` and
      `status_code`; `expired` says whether the deadline has passed. */
  function Classify(error: Option<TransportError>, status: Option<int>, expired: bool): (r: MailTmError)
    ensures r.Wrapped? <==> error.Some?
    ensures r.Wrapped? ==> r.cause == error.value
    ensures r.StatusCode? <==> error.None? && status.Some?
    ensures r.StatusCode? ==> r.code == status.value
    ensures r.Timeout? <==> error.None? && status.None? && expired
    ensures r.UnknownError? <==> error.None? && status.None? && !expired
  {
    match error
    case Some(e) => Wrapped(e)
    case None =>
      match status
      case Some(c) => StatusCode(c)
      case None => if expired then Timeout else UnknownError
  }

  /** What `_make_mailtm_request` returns or raises when the request function yields the
      attempts `o` in turn and the deadline admits exactly `|o|` of them. The deadline
      has passed once every admitted attempt has begun. */
  function Execute<T>(o: seq<Attempt<T>>): Result<T> {
    var k := Stop(o);
    if k < |o| && IsSuccess(o[k]) then Ok(o[k].body)
    else
      var made := o[..Made(o)];
      Err(Classify(LastTransport(made), LastStatus(made), Made(o) == |o|))
  }

  /** The number of retryable attempts in `s`. */
  function CountRetryable<T>(s: seq<Attempt<T>>): nat {
    if s == [] then 0 else (if Retryable(s[0]) then 1 else 0) + CountRetryable(s[1..])
  }

  /** The retry loop. `attempts` counts calls of the request function and `waits` the
      one-second sleeps. */
  method MakeRequest<T>(o: seq<Attempt<T>>) returns (r: Result<T>, attempts: nat, waits: nat)
    ensures r == Execute(o)
    ensures attempts == Made(o)
    ensures waits == Stop(o)
  {
    var error: Option<TransportError> := None;
    var statusCode: Option<int> := None;
    attempts, waits := 0, 0;
    while attempts < |o|
      invariant waits == attempts <= |o|
      invariant forall j :: 0 <= j < attempts ==> Retryable(o[j])
      invariant error == LastTransport(o[..attempts])
      invariant statusCode == LastStatus(o[..attempts])
    {
      var a := o[attempts];
      Record(o, attempts);
      attempts := attempts + 1;
      match a {
        case Reply(status, body) =>
          statusCode := Some(status);
          if status == 200 || status == 201 {
            StopAt(o, attempts - 1);
            r := Ok(body);
            return;
          }
          if status != 429 {
            break;
          }
        case Transport(e) =>
          error := Some(e);
      }
      waits := waits + 1;
    }
    if attempts < |o| {
      StopAt(o, attempts - 1);
    }
    if error.Some? {
      // As written, line 30 names `e`, which Python 3 deletes at the end of the
      // `except` clause that bound it, so this branch raises UnboundLocalError.
      // The model raises what the line evidently means: an error wrapping the
      // recorded transport exception.
      r := Err(Wrapped(error.value));
    } else if statusCode.Some? {
      r := Err(StatusCode(statusCode.value));
    } else if attempts == |o| {
      r := Err(Timeout);
    } else {
      r := Err(UnknownError);
    }
  }

  /** Attempt `n` updates `error` or `status_code`, and leaves the other alone. */
  lemma Record<T>(o: seq<Attempt<T>>, n: nat)
    requires n < |o|
    ensures LastTransport(o[..n + 1]) ==
      if o[n].Transport? then Some(o[n].cause) else LastTransport(o[..n])
    ensures LastStatus(o[..n + 1]) ==
      if o[n].Reply? then Some(o[n].status) else LastStatus(o[..n])
  {
    assert o[..n + 1][..n] == o[..n];
  }

  /** `Stop` is the unique index of the first non-retryable attempt. */
  lemma StopAt<T>(o: seq<Attempt<T>>, k: nat)
    requires k < |o| && !Retryable(o[k])
    requires forall j :: 0 <= j < k ==> Retryable(o[j])
    ensures Stop(o) == k && Made(o) == k + 1
  {
  }

  /** The first success ends the run with its body, whatever 429s or transport errors
      came before it, after exactly `k + 1` attempts and `k` waits. */
  lemma {:induction false} SuccessOnFirstHit<T>(o: seq<Attempt<T>>, k: nat)
    requires k < |o| && IsSuccess(o[k])
    requires forall j :: 0 <= j < k ==> Retryable(o[j])
    ensures Execute(o) == Ok(o[k].body)
    ensures Made(o) == k + 1 && Stop(o) == k
  {
    StopAt(o, k);
  }

  /** Conversely, a returned body is that of a success preceded only by retried attempts. */
  lemma ReturnedBodyIsFirstHit<T>(o: seq<Attempt<T>>, v: T)
    requires Execute(o) == Ok(v)
    ensures exists k :: (0 <= k < |o| && IsSuccess(o[k]) && o[k].body == v &&
      forall j :: 0 <= j < k ==> Retryable(o[j]))
  {
    assert IsSuccess(o[Stop(o)]);
  }

  /** A status other than 200, 201 and 429 at attempt `k` ends the loop there: no later
      attempt and no wait after it. The error is the transport one when an earlier
      attempt raised, and otherwise carries that very status. */
  lemma {:induction false} TerminalStatusStops<T>(o: seq<Attempt<T>>, k: nat)
    requires k < |o| && o[k].Reply?
    requires o[k].status != 200 && o[k].status != 201 && o[k].status != 429
    requires forall j :: 0 <= j < k ==> Retryable(o[j])
    ensures Made(o) == k + 1 && Stop(o) == k
    ensures Execute(o) == Err(
      match LastTransport(o[..k])
      case Some(e) => Wrapped(e)
      case None => StatusCode(o[k].status))
  {
    StopAt(o, k);
    assert o[..k + 1][..k] == o[..k];
  }

  /** Once any attempt made has raised a transport exception, a failing run raises the
      transport error, even when a later attempt received a terminal status; it wraps
      the last such exception. */
  lemma {:induction false} TransportErrorWins<T>(o: seq<Attempt<T>>, j: nat)
    requires j < Made(o) && o[j].Transport?
    requires Execute(o).Err?
    ensures Execute(o).error.Wrapped?
    ensures exists i :: (j <= i < Made(o) && o[i] == Transport(Execute(o).error.cause) &&
      forall l :: i < l < Made(o) ==> o[l].Reply?)
  {
    var made := o[..Made(o)];
    FailureIsClassified(o);
    assert made[j] == o[j];
    var e := LastTransport(made);
    assert e.Some?;
    var i :| 0 <= i < |made| && made[i] == Transport(e.value) &&
      forall l :: i < l < |made| ==> made[l].Reply?;
    assert j <= i;
    assert made[i] == o[i];
    forall l | i < l < Made(o)
      ensures o[l].Reply?
    {
      assert made[l] == o[l];
    }
  }

  /** A failing run raises the classification of the attempts it made. */
  lemma FailureIsClassified<T>(o: seq<Attempt<T>>)
    requires Execute(o).Err?
    ensures var made := o[..Made(o)];
      Execute(o).error == Classify(LastTransport(made), LastStatus(made), Made(o) == |o|)
  {
  }

  /** With no transport exception among the attempts made, a failing run that made at
      least one attempt carries the status of the last response received. */
  lemma {:induction false} LastStatusWins<T>(o: seq<Attempt<T>>)
    requires Execute(o).Err? && Made(o) > 0
    requires forall j :: 0 <= j < Made(o) ==> o[j].Reply?
    ensures Execute(o) == Err(StatusCode(o[Made(o) - 1].status))
  {
    var made := o[..Made(o)];
    assert made[|made| - 1] == o[Made(o) - 1];
  }

  /** Throttling that outlasts the budget reports `Status code: 429`, not `timeout`:
      every admitted attempt runs and each is followed by a wait. */
  lemma {:induction false} ThrottledThroughout<T>(o: seq<Attempt<T>>)
    requires |o| > 0
    requires forall j :: 0 <= j < |o| ==> o[j].Reply? && o[j].status == 429
    ensures Execute(o) == Err(StatusCode(429))
    ensures Made(o) == |o| && Stop(o) == |o|
  {
    LastStatusWins(o);
  }

  /** `timeout` is raised exactly when no attempt could begin. */
  lemma {:induction false} TimeoutIffNoAttempt<T>(o: seq<Attempt<T>>)
    ensures Execute(o) == Err(Timeout) <==> |o| == 0
  {
    if |o| > 0 {
      var made := o[..Made(o)];
      assert made[0] == o[0];
      if LastTransport(made).None? {
        assert made[0].Reply?;
      }
    }
  }

  /** The `unknown error` branch (mailtm.py:35) cannot be reached. */
  lemma {:induction false} UnknownUnreachable<T>(o: seq<Attempt<T>>)
    ensures Execute(o) != Err(UnknownError)
  {
    if |o| > 0 {
      var made := o[..Made(o)];
      assert made[0] == o[0];
      if LastTransport(made).None? {
        assert made[0].Reply?;
      }
    }
  }

  /** Every retried attempt is followed by exactly one wait, and the attempt that ends
      the loop by none: the waits equal the retryable attempts made. */
  lemma {:induction false} WaitsFollowRetries<T>(o: seq<Attempt<T>>)
    ensures CountRetryable(o[..Made(o)]) == Stop(o)
    ensures Made(o) - Stop(o) == (if Stop(o) < |o| then 1 else 0)
  {
    if o != [] {
      if Retryable(o[0]) {
        WaitsFollowRetries(o[1..]);
        assert o[..Made(o)][1..] == o[1..][..Made(o[1..])];
      } else {
        assert o[..Made(o)] == [o[0]];
      }
    }
  }

  /** A 500 on the first call raises `Status code: 500` after that single attempt,
      with no wait. */
  lemma ServerErrorAtOnce<T>(o: seq<Attempt<T>>, b: T)
    requires |o| > 0 && o[0] == Reply(500, b)
    ensures Execute(o) == Err(StatusCode(500))
    ensures Made(o) == 1 && Stop(o) == 0
  {
    TerminalStatusStops(o, 0);
  }
}

/**
 * The two HTTP client middlewares: a token-bucket rate limiter that makes a
 * request wait once a window's budget is spent, and a retry policy that
 * repeats a request answered with 429 Too Many Requests, waiting as long as
 * the server's `retry-after` header asks.
 *
 * Time is a natural number of nanoseconds handed in by the caller; a sleep
 * is returned as its duration instead of being taken. The downstream
 * handler is a function from the number of the send to its reply.
 */
module Middlewares {
  import opened Results
  import opened Strings

  // ---------------------------------------------------------------------
  // Rate limiter
  // ---------------------------------------------------------------------

  /** `num` requests per `per` nanoseconds. */
  datatype Rate = Rate(num: nat, per: nat)

  predicate ValidRate(rate: Rate) {
    0 < rate.num <= U64_MAX && 0 < rate.per
  }

  /** `Rate::new`: a budget and a window length, both of them positive. */
  function NewRate(num: nat, per: nat): (rate: Rate)
    requires 0 < num <= U64_MAX && 0 < per
    ensures ValidRate(rate) && rate.num == num && rate.per == per
  {
    Rate(num, per)
  }

  /** The limiter's shared state: the end of the current window and the tokens left in it. */
  datatype LimiterState = LimiterState(until: nat, rem: nat)

  /** The outcome of one call: the new state, and how long the request must sleep first, if at all. */
  datatype Admission = Admission(state: LimiterState, sleep: Option<nat>)

  /**
   * One request at time `now`: a window that has ended is renewed with a
   * full budget; then a token is taken if one is left, and otherwise the
   * request sleeps until the window ends.
   */
  function Step(rate: Rate, s: LimiterState, now: nat): (a: Admission)
    requires ValidRate(rate)
    ensures a.sleep.None? ==> a.state.rem + 1 == (if now >= s.until then rate.num else s.rem)
    ensures a.sleep.Some? ==> a.state.rem == 0 && now < s.until && a.state == s && a.sleep.value == s.until - now
    ensures a.state.until == if now >= s.until then now + rate.per else s.until
  {
    var renewed := if now >= s.until then LimiterState(now + rate.per, rate.num) else s;
    if renewed.rem > 0 then Admission(renewed.(rem := renewed.rem - 1), None)
    else Admission(renewed, Some(renewed.until - now))
  }

  /**
   * What the limiter promises between calls, given the time `lastSeen` of
   * the latest call (or of its creation): the tokens never exceed the budget
   * and the window ends at most one window length after that time.
   */
  predicate Bounded(rate: Rate, s: LimiterState, lastSeen: nat) {
    s.rem <= rate.num && s.until <= lastSeen + rate.per
  }

  /** With a clock that does not go back, every call keeps the bound, and any sleep lasts between zero and one window. */
  lemma StepBounded(rate: Rate, s: LimiterState, lastSeen: nat, now: nat)
    requires ValidRate(rate) && Bounded(rate, s, lastSeen) && lastSeen <= now
    ensures Bounded(rate, Step(rate, s, now).state, now)
    ensures Step(rate, s, now).sleep.Some? ==> 0 < Step(rate, s, now).sleep.value <= rate.per
  {
  }

  /** A call after the window has ended always proceeds, and opens a window with one token spent. */
  lemma StepRenews(rate: Rate, s: LimiterState, now: nat)
    requires ValidRate(rate) && now >= s.until
    ensures Step(rate, s, now) == Admission(LimiterState(now + rate.per, rate.num - 1), None)
  {
  }

  /** The calls at the given times, one after another, and the sleep each one gets. */
  function Run(rate: Rate, s: LimiterState, times: seq<nat>): (r: (LimiterState, seq<Option<nat>>))
    requires ValidRate(rate)
    ensures |r.1| == |times|
    decreases |times|
  {
    if times == [] then (s, [])
    else
      var a := Step(rate, s, times[0]);
      var rest := Run(rate, a.state, times[1..]);
      (rest.0, [a.sleep] + rest.1)
  }

  /**
   * Inside one window, exactly the first `rem` calls proceed; each later
   * call must sleep until the window ends.
   */
  lemma {:induction false} WithinWindow(rate: Rate, s: LimiterState, times: seq<nat>)
    requires ValidRate(rate)
    requires forall i :: 0 <= i < |times| ==> times[i] < s.until
    ensures var sleeps := Run(rate, s, times).1;
      forall i :: 0 <= i < |times| ==> (sleeps[i].None? <==> i < s.rem)
    ensures var sleeps := Run(rate, s, times).1;
      forall i :: 0 <= i < |times| && s.rem <= i ==> sleeps[i] == Some(s.until - times[i])
    decreases |times|
  {
    if times != [] {
      var a := Step(rate, s, times[0]);
      var rest := times[1..];
      assert a.state.until == s.until;
      WithinWindow(rate, a.state, rest);
      var sleeps := Run(rate, s, times).1;
      assert sleeps == [a.sleep] + Run(rate, a.state, rest).1;
      forall i | 1 <= i < |times|
        ensures (sleeps[i].None? <==> i < s.rem)
        ensures s.rem <= i ==> sleeps[i] == Some(s.until - times[i])
      {
        assert sleeps[i] == Run(rate, a.state, rest).1[i - 1];
        assert times[i] == rest[i - 1];
        if s.rem == 0 {
          assert a.state.rem == 0;
        } else {
          assert a.state.rem == s.rem - 1;
        }
      }
    }
  }

  /**
   * The budget of a fresh window: a call after the window has ended opens a
   * new one, and of it and the calls that follow within the new window,
   * exactly the first `num` proceed without sleeping.
   */
  lemma WindowBudget(rate: Rate, s: LimiterState, start: nat, times: seq<nat>)
    requires ValidRate(rate) && start >= s.until
    requires forall i :: 0 <= i < |times| ==> times[i] < start + rate.per
    ensures var sleeps := Run(rate, s, [start] + times).1;
      forall i :: 0 <= i < |times| + 1 ==> (sleeps[i].None? <==> i < rate.num)
  {
    var all := [start] + times;
    var a := Step(rate, s, start);
    StepRenews(rate, s, start);
    assert all[1..] == times;
    WithinWindow(rate, a.state, times);
    var sleeps := Run(rate, s, all).1;
    assert sleeps == [a.sleep] + Run(rate, a.state, times).1;
    forall i | 1 <= i < |times| + 1 ensures sleeps[i].None? <==> i < rate.num {
      assert sleeps[i] == Run(rate, a.state, times).1[i - 1];
    }
  }

  /** `RateLimitMiddleware`: one rate, and one state shared by all the requests it handles. */
  class RateLimitMiddleware {
    const rate: Rate
    var until: nat
    var rem: nat

    function State(): LimiterState
      reads this
    {
      LimiterState(until, rem)
    }

    predicate Valid()
      reads this
    {
      ValidRate(rate) && rem <= rate.num
    }

    /** `RateLimitMiddleware::new` at time `now`: a full budget, and a window that has already ended. */
    constructor (num: nat, per: nat, now: nat)
      requires 0 < num <= U64_MAX && 0 < per
      ensures Valid()
      ensures rate == NewRate(num, per) && until == now && rem == num
    {
      rate := NewRate(num, per);
      until := now;
      rem := num;
    }

    /** The state update of `handle` for a request at `now`; the request then sleeps for `sleep`, if any. */
    method Handle(now: nat) returns (sleep: Option<nat>)
      requires Valid()
      modifies this
      ensures Valid()
      ensures Admission(State(), sleep) == Step(rate, old(State()), now)
    {
      if now >= until {
        until := now + rate.per;
        rem := rate.num;
      }
      if rem > 0 {
        rem := rem - 1;
        sleep := None;
      } else {
        sleep := Some(until - now);
      }
    }
  }

  // ---------------------------------------------------------------------
  // Retry policy
  // ---------------------------------------------------------------------

  newtype byte = x: int | 0 <= x < 256

  /** A response as the retry policy sees it: a status code and the first value of each header. */
  datatype Response = Response(status: nat, headers: map<string, seq<byte>>)

  const TOO_MANY_REQUESTS: nat := 429

  /** The errors leaving the retry middleware. */
  datatype MiddlewareError =
    | DownstreamError(message: string)
    | TimedOut

  type Reply = Result<Response, MiddlewareError>

  /** `HeaderValue::to_str` succeeds on visible ASCII and tabs only. */
  predicate VisibleAscii(v: seq<byte>) {
    forall i :: 0 <= i < |v| ==> (32 <= v[i] < 127 || v[i] == 9)
  }

  function AsText(v: seq<byte>): (s: string)
    ensures |s| == |v| && forall i :: 0 <= i < |v| ==> s[i] == (v[i] as int) as char
  {
    if v == [] then [] else [(v[0] as int) as char] + AsText(v[1..])
  }

  /**
   * `get_retry_after`: the number of seconds in the `retry-after` header,
   * if the header is there, is visible ASCII and reads as a `u64`.
   */
  function GetRetryAfter(headers: map<string, seq<byte>>): (r: Option<nat>)
    ensures r.Some? <==> "retry-after" in headers && VisibleAscii(headers["retry-after"]) &&
                         ParseU64(AsText(headers["retry-after"])).Ok?
    ensures r.Some? ==> r.value == ParseU64(AsText(headers["retry-after"])).value && r.value <= U64_MAX
  {
    if "retry-after" !in headers then None
    else
      var v := headers["retry-after"];
      if !VisibleAscii(v) then None
      else
        ParseU64Range(AsText(v));
        match ParseU64(AsText(v))
        case Ok(n) => Some(n)
        case Err(_) => None
  }

  function AsBytes(s: string): (v: seq<byte>)
    requires forall i :: 0 <= i < |s| ==> s[i] as int < 256
    ensures |v| == |s| && forall i :: 0 <= i < |s| ==> v[i] as int == s[i] as int
  {
    if s == [] then [] else [s[0] as int as byte] + AsBytes(s[1..])
  }

  /** A header holding a decimal number of seconds is read as that number. */
  lemma GetRetryAfterOfNumber(headers: map<string, seq<byte>>, n: nat)
    requires n <= U64_MAX
    requires forall i :: 0 <= i < |NatToString(n)| ==> NatToString(n)[i] as int < 256
    requires "retry-after" in headers && headers["retry-after"] == AsBytes(NatToString(n))
    ensures GetRetryAfter(headers) == Some(n)
  {
    var d := NatToString(n);
    var v := headers["retry-after"];
    assert forall i :: 0 <= i < |d| ==> IsDigit(d[i]);
    assert AsText(v) == d;
    ParseU64OfNatToString(n);
  }

  /** A missing header, or one that is not a number, gives no delay. */
  lemma GetRetryAfterMissing(headers: map<string, seq<byte>>)
    ensures "retry-after" !in headers ==> GetRetryAfter(headers) == None
    ensures "retry-after" in headers && |headers["retry-after"]| == 0 ==> GetRetryAfter(headers) == None
  {
  }

  /** The wait while another request is waiting out a `retry-after`, in milliseconds. */
  const WAIT_POLL_MS: nat := 100

  /** The result of a request through the retry middleware: the outcome, the sends made and the sleeps taken (in milliseconds). */
  datatype RetryRun = RetryRun(outcome: Reply, sends: nat, sleeps: seq<nat>)

  function Repeat(x: nat, n: nat): (s: seq<nat>)
    ensures |s| == n && forall i :: 0 <= i < n ==> s[i] == x
  {
    if n == 0 then [] else [x] + Repeat(x, n - 1)
  }

  /** The sleep a 429 response asks for: its `retry-after` in milliseconds, if it has one. */
  function BackOff(response: Response): seq<nat> {
    match GetRetryAfter(response.headers)
    case None => []
    case Some(secs) => [secs * 1000]
  }

  /**
   * The attempts from send number `sent` on, with `left` attempts to go and
   * no other request waiting: a downstream error or a response other than
   * 429 ends the loop; a 429 sleeps as asked and tries again.
   */
  function Attempts(sent: nat, left: nat, downstream: nat -> Reply): (r: RetryRun)
    ensures sent <= r.sends <= sent + left
    decreases left
  {
    if left == 0 then RetryRun(Err(TimedOut), sent, [])
    else
      match downstream(sent)
      case Err(e) => RetryRun(Err(e), sent + 1, [])
      case Ok(response) =>
        if response.status == TOO_MANY_REQUESTS then
          var rest := Attempts(sent + 1, left - 1, downstream);
          RetryRun(rest.outcome, rest.sends, BackOff(response) + rest.sleeps)
        else RetryRun(Ok(response), sent + 1, [])
  }

  /**
   * The whole `handle` of a single caller: if the shared flag says a wait is
   * in progress, no one clears it, and every attempt only polls.
   */
  function Retry(isWaiting: bool, maxRetries: nat, downstream: nat -> Reply): RetryRun {
    if isWaiting then RetryRun(Err(TimedOut), 0, Repeat(WAIT_POLL_MS, maxRetries))
    else Attempts(0, maxRetries, downstream)
  }

  /** `RetryMiddleware`: a bound on the attempts and a flag that is set while a `retry-after` is waited out. */
  class RetryMiddleware {
    var isWaiting: bool
    const maxRetries: nat

    /** `RetryMiddleware::new` */
    constructor (maxRetries: nat)
      ensures !isWaiting && this.maxRetries == maxRetries
    {
      isWaiting := false;
      this.maxRetries := maxRetries;
    }

    /** `handle` for one request; `downstream(k)` is the reply to its `k`-th send. */
    method Handle(downstream: nat -> Reply) returns (outcome: Reply, sends: nat, sleeps: seq<nat>)
      modifies this
      ensures RetryRun(outcome, sends, sleeps) == Retry(old(isWaiting), maxRetries, downstream)
      ensures isWaiting == old(isWaiting)
    {
      sends := 0;
      sleeps := [];
      ghost var total := Attempts(0, maxRetries, downstream);
      assert total == Resume(0, maxRetries, downstream, []);
      for n := 0 to maxRetries
        invariant isWaiting == old(isWaiting)
        invariant isWaiting ==> sends == 0 && sleeps == Repeat(WAIT_POLL_MS, n)
        invariant !isWaiting ==> sends == n && total == Resume(n, maxRetries - n, downstream, sleeps)
      {
        if isWaiting {
          RepeatSnoc(WAIT_POLL_MS, n);
          sleeps := sleeps + [WAIT_POLL_MS];
          continue;
        }
        var reply := downstream(sends);
        sends := sends + 1;
        if reply.Err? {
          ResumeStops(n, maxRetries - n, downstream, sleeps);
          return reply, sends, sleeps;
        }
        var response := reply.value;
        if response.status == TOO_MANY_REQUESTS {
          ResumeRetries(n, maxRetries - n, downstream, sleeps);
          ghost var next := sleeps + BackOff(response);
          var retryAfter := GetRetryAfter(response.headers);
          if retryAfter.Some? {
            isWaiting := true;
            sleeps := sleeps + [retryAfter.value * 1000];
            isWaiting := false;
          } else {
            assert sleeps + [] == sleeps;
          }
          assert sleeps == next;
          continue;
        }
        ResumeStops(n, maxRetries - n, downstream, sleeps);
        return Ok(response), sends, sleeps;
      }
      ResumeExhausted(maxRetries, downstream, sleeps);
      outcome := Err(TimedOut);
    }
  }

  /** The attempts still to come, after the sleeps `done` already taken. */
  function Resume(sent: nat, left: nat, downstream: nat -> Reply, done: seq<nat>): RetryRun {
    var r := Attempts(sent, left, downstream);
    RetryRun(r.outcome, r.sends, done + r.sleeps)
  }

  lemma ResumeRetries(sent: nat, left: nat, downstream: nat -> Reply, done: seq<nat>)
    requires left > 0 && downstream(sent).Ok? && downstream(sent).value.status == TOO_MANY_REQUESTS
    ensures Resume(sent, left, downstream, done) ==
            Resume(sent + 1, left - 1, downstream, done + BackOff(downstream(sent).value))
  {
    var rest := Attempts(sent + 1, left - 1, downstream);
    assert done + (BackOff(downstream(sent).value) + rest.sleeps) == done + BackOff(downstream(sent).value) + rest.sleeps;
  }

  lemma ResumeStops(sent: nat, left: nat, downstream: nat -> Reply, done: seq<nat>)
    requires left > 0 && (downstream(sent).Err? || downstream(sent).value.status != TOO_MANY_REQUESTS)
    ensures Resume(sent, left, downstream, done) == RetryRun(downstream(sent), sent + 1, done)
  {
    assert done + [] == done;
  }

  lemma ResumeExhausted(sent: nat, downstream: nat -> Reply, done: seq<nat>)
    ensures Resume(sent, 0, downstream, done) == RetryRun(Err(TimedOut), sent, done)
  {
    assert done + [] == done;
  }

  lemma RepeatSnoc(x: nat, n: nat)
    ensures Repeat(x, n) + [x] == Repeat(x, n + 1)
  {
  }

  /** No more than `maxRetries` sends are made. */
  lemma RetrySendsBounded(isWaiting: bool, maxRetries: nat, downstream: nat -> Reply)
    ensures Retry(isWaiting, maxRetries, downstream).sends <= maxRetries
  {
  }

  /** With no attempts allowed, the request times out without a send. */
  lemma RetryZero(isWaiting: bool, downstream: nat -> Reply)
    ensures Retry(isWaiting, 0, downstream) == RetryRun(Err(TimedOut), 0, [])
  {
  }

  /** A first reply other than 429 is handed back as it is, after one send. */
  lemma RetryFirstAnswer(maxRetries: nat, downstream: nat -> Reply)
    requires maxRetries > 0 && downstream(0).Ok? && downstream(0).value.status != TOO_MANY_REQUESTS
    ensures Retry(false, maxRetries, downstream) == RetryRun(downstream(0), 1, [])
  {
  }

  /** A downstream error is passed on at once, without a retry. */
  lemma RetryErrorPropagates(maxRetries: nat, downstream: nat -> Reply)
    requires maxRetries > 0 && downstream(0).Err?
    ensures Retry(false, maxRetries, downstream) == RetryRun(downstream(0), 1, [])
  {
  }

  /** If every send is answered 429, all attempts are used and the request times out. */
  lemma {:induction false} AttemptsAllTooMany(sent: nat, left: nat, downstream: nat -> Reply)
    requires forall k :: sent <= k < sent + left ==>
               downstream(k).Ok? && downstream(k).value.status == TOO_MANY_REQUESTS
    ensures Attempts(sent, left, downstream).outcome == Err(TimedOut)
    ensures Attempts(sent, left, downstream).sends == sent + left
    decreases left
  {
    if left > 0 {
      AttemptsAllTooMany(sent + 1, left - 1, downstream);
    }
  }

  /**
   * What the loop hands back is the first reply that is not a 429, and
   * every send before it was answered 429.
   */
  lemma {:induction false} AttemptsOutcome(sent: nat, left: nat, downstream: nat -> Reply)
    ensures var r := Attempts(sent, left, downstream);
      && (forall k :: sent <= k < r.sends - 1 ==>
            downstream(k).Ok? && downstream(k).value.status == TOO_MANY_REQUESTS)
      && (r.outcome != Err(TimedOut) ==>
            r.sends > sent && r.outcome == downstream(r.sends - 1) &&
            (r.outcome.Ok? ==> r.outcome.value.status != TOO_MANY_REQUESTS))
    decreases left
  {
    if left > 0 && downstream(sent).Ok? && downstream(sent).value.status == TOO_MANY_REQUESTS {
      AttemptsOutcome(sent + 1, left - 1, downstream);
    }
  }

  /** The timeout of a single caller whose every send is answered 429. */
  lemma RetryAllTooMany(maxRetries: nat, downstream: nat -> Reply)
    requires forall k :: 0 <= k < maxRetries ==>
               downstream(k).Ok? && downstream(k).value.status == TOO_MANY_REQUESTS
    ensures Retry(false, maxRetries, downstream).outcome == Err(TimedOut)
    ensures Retry(false, maxRetries, downstream).sends == maxRetries
  {
    AttemptsAllTooMany(0, maxRetries, downstream);
  }
}

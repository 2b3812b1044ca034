/**
  The retry machines of the three SDKs against an arbitrary sequence of attempt outcomes.
  `world[i]` is whatever the network, the server and the caller do to attempt i + 1, and how
  much time passes at each point of it. A call starts at time 0; the clock never runs back.
 */
module Retry {
  import opened Common
  import opened Backoff

  // ----- The retry oracles -----

  /** A Connect error as decoded: the code trimmed and lower-cased, None when blank. */
  datatype ApiError = ApiError(status: int, code: Option<string>, reason: Option<string>, domain: Option<string>)

  datatype Policy = Policy(code: string, transient: bool, reuseKey: bool)

  const DOMAIN := "medallion.jimtech.io"

  const POLICIES: map<string, Policy> := map[
    "AUTHORIZATION_DEPENDENCY_UNAVAILABLE" := Policy("unavailable", true, true),
    "BACKPRESSURE" := Policy("resource_exhausted", true, true),
    "CAPABILITY_UNAVAILABLE" := Policy("failed_precondition", false, true),
    "FEATURE_NOT_ENTITLED" := Policy("failed_precondition", false, true),
    "IDEMPOTENCY_MISMATCH" := Policy("already_exists", false, false),
    "INTEGRATION_UNAVAILABLE" := Policy("unavailable", true, true),
    "WORKSPACE_SELECTOR_CONFLICT" := Policy("invalid_argument", false, false)
  ]

  predicate TransientStatus(status: int) {
    status in {408, 429, 502, 503, 504}
  }

  /** Without a reason: the Connect code decides, or the HTTP status when there is none. */
  predicate TransientTransport(e: ApiError) {
    if e.code.Some? then e.code.value in {"deadline_exceeded", "resource_exhausted", "unavailable"}
    else TransientStatus(e.status)
  }

  predicate PolicyAllows(e: ApiError, reason: string) {
    reason in POLICIES
    && POLICIES[reason].reuseKey && POLICIES[reason].transient && e.code == Some(POLICIES[reason].code)
  }

  predicate TsRetryable(e: ApiError, safe: bool) {
    if !safe then false
    else if e.reason.Some? then e.domain == Some(DOMAIN) && PolicyAllows(e, e.reason.value)
    else TransientTransport(e)
  }

  predicate PyRetryable(e: ApiError, safe: bool) {
    if !safe then false
    else if e.reason.GetOr("") != "" then e.domain == Some(DOMAIN) && PolicyAllows(e, e.reason.value)
    else TransientTransport(e)
  }

  predicate GoRetryable(e: ApiError, safe: bool) {
    var reason, domain := e.reason.GetOr(""), e.domain.GetOr("");
    if !safe then false
    else if domain == DOMAIN && reason in POLICIES then PolicyAllows(e, reason)
    else if domain == DOMAIN && reason != "" then false
    else if domain != "" || reason != "" then false
    else TransientTransport(e)
  }

  /**
    All three give the same advice exactly when the call is not safe to repeat, or there is
    a non-empty reason, or the transport is not transient, or there is no reason at all and
    no domain or an empty one.
   */
  lemma OraclesAgreeIff(e: ApiError, safe: bool)
    ensures TsRetryable(e, safe) == PyRetryable(e, safe) == GoRetryable(e, safe) <==>
            || !safe
            || e.reason.GetOr("") != ""
            || !TransientTransport(e)
            || (e.reason.None? && e.domain.GetOr("") == "")
  {
    assert "" !in POLICIES;
  }

  /** A reason or domain that is there but empty, and one without the other, split the three. */
  lemma OraclesDiffer()
    ensures var e := ApiError(503, None, Some(""), Some(""));
            !TsRetryable(e, true) && PyRetryable(e, true) && GoRetryable(e, true)
    ensures var e := ApiError(503, None, None, Some(DOMAIN));
            TsRetryable(e, true) && PyRetryable(e, true) && !GoRetryable(e, true)
  {
  }

  // ----- Time -----

  type Span = r: real | 0.0 <= r witness 0.0

  /** The same request n times. */
  function Repeat<R>(request: R, n: nat): (sends: seq<R>)
    ensures |sends| == n
  {
    if n == 0 then [] else Repeat(request, n - 1) + [request]
  }

  lemma {:induction false} RepeatAt<R>(request: R, n: nat, i: nat)
    requires i < n
    ensures Repeat(request, n)[i] == request
  {
    if i < n - 1 {
      RepeatAt(request, n - 1, i);
    }
  }

  /** A send, and the wait after it that ran to its end. */
  datatype Leg<T> = Leg(start: T, wait: T)

  function TotalWait(legs: seq<Leg<real>>): real {
    if legs == [] then 0.0 else TotalWait(legs[..|legs| - 1]) + legs[|legs| - 1].wait
  }

  function GoTotalWait(legs: seq<Leg<int>>): int {
    if legs == [] then 0 else GoTotalWait(legs[..|legs| - 1]) + legs[|legs| - 1].wait
  }

  /** The moment before which the server asked not to be called again, in seconds of `second` units. */
  function NotBefore(header: RetryAfter<real>, received: real, second: real): real {
    match header
    case Absent => received
    case Seconds(n) => received + n as real * second
    case Date(at) => at
  }

  function GoNotBefore(header: RetryAfter<int>, received: int): int {
    match header
    case Absent => received
    case Seconds(n) => received + n * NANOS_PER_SECOND
    case Date(at) => at
  }

  // ----- TypeScript: RequestClient.dispatch -----

  datatype TsReply<B> =
    | FetchFailed(abortLike: bool)
    | Redirected
    | TooLarge
    | InvalidJson(status: int)
    | Unreadable(status: int, abortLike: bool)
    | ErrorReply(error: ApiError)
    | OkReply(body: B)

  /** The reply's Retry-After, the draw, and the time to the reply, to arming the timer, and past its due time. */
  datatype TsPace = TsPace(header: RetryAfter<real>, draw: Draw, service: Span, arming: Span, lag: Span)

  /**
    One attempt, what the abort signal shows before it, after it and, by the caller, during the
    wait; and whether the deadline timer has fired when a call that ends here is being ended.
   */
  datatype TsAttempt<B> = TsAttempt(abortedBefore: bool, reply: TsReply<B>, abortedAfter: bool, abortedInWait: bool,
                                    expired: bool, pace: TsPace)

  datatype TsResult<B> =
    | Returned(body: B)
    | Aborted
    | TimedOut
    | NetworkError
    | RedirectRejected
    | ResponseTooLarge
    | InvalidResponse
    | Api(error: ApiError)
    | AttemptsExhausted

  predicate IsOk(status: int) {
    200 <= status <= 299
  }

  function StatusError(status: int): ApiError {
    ApiError(status, None, None, None)
  }

  /** Outcomes after which a retry-safe call may send again. */
  predicate TsTransient<B>(a: TsAttempt<B>) {
    match a.reply
    case FetchFailed(abortLike) => !abortLike && !a.abortedAfter
    case InvalidJson(status) => !IsOk(status) && TsRetryable(StatusError(status), true)
    case Unreadable(status, abortLike) =>
      (IsOk(status) || TsRetryable(StatusError(status), true)) && !abortLike && !a.abortedAfter
    case ErrorReply(error) => TsRetryable(error, true)
    case _ => false
  }

  /** How an aborted call ends. */
  function TsStopped<B>(a: TsAttempt<B>): TsResult<B> {
    if a.expired then TimedOut else Aborted
  }

  /** How a wait that does not run to its end ends the call. */
  function TsInterrupted<B>(a: TsAttempt<B>): TsResult<B> {
    if a.abortedInWait then TsStopped(a) else TimedOut
  }

  /** What the caller gets when attempt a is the last. */
  function TsFinal<B>(a: TsAttempt<B>): TsResult<B> {
    match a.reply
    case FetchFailed(abortLike) => if abortLike || a.abortedAfter then TsStopped(a) else NetworkError
    case Redirected => RedirectRejected
    case TooLarge => ResponseTooLarge
    case InvalidJson(status) => if IsOk(status) then InvalidResponse else Api(StatusError(status))
    case Unreadable(_, abortLike) => if abortLike || a.abortedAfter then TsStopped(a) else NetworkError
    case ErrorReply(error) => Api(error)
    case OkReply(body) => Returned(body)
  }

  function TsHeader<B>(a: TsAttempt<B>): RetryAfter<real> {
    if a.reply.FetchFailed? then Absent else a.pace.header
  }

  /** A client's retryDelay: the wait after attempt i + 1, for a header read at `now`. */
  type TsDelays = (nat, RetryAfter<real>, real, Draw) -> real

  function TsRetryDelay(policy: TsPolicy): TsDelays {
    (i: nat, header: RetryAfter<real>, now: real, draw: Draw) => TsWait(policy, i + 1, header, now, draw)
  }

  function TsDelayAfter<B>(delay: TsDelays, i: nat, a: TsAttempt<B>, start: real): real {
    delay(i, TsHeader(a), start + a.pace.service, a.pace.draw)
  }

  function TsArmedAt<B>(a: TsAttempt<B>, start: real): real {
    start + a.pace.service + a.pace.arming
  }

  /** The deadline timer, created at the start of the call, fires before the retry timer. */
  predicate TsCut(timeout: real, attempt: nat, armed: real, wait: real) {
    wait > 0.0 && Timer(0.0, timeout, 0).FiresBefore(Timer(armed, MinReal(wait, MAX_TIMER_DELAY_MS), attempt))
  }

  /** abortableDelay runs to its end: no timer for a wait of nothing. */
  predicate TsWaitEnds<B>(timeout: real, attempt: nat, a: TsAttempt<B>, start: real, wait: real) {
    !TsCut(timeout, attempt, TsArmedAt(a, start), wait) && !a.abortedInWait
  }

  /** When the wait after attempt a is over. */
  function TsWokenAt<B>(a: TsAttempt<B>, start: real, wait: real): real {
    TsArmedAt(a, start) + (if wait > 0.0 then MinReal(wait, MAX_TIMER_DELAY_MS) else 0.0) + a.pace.lag
  }

  lemma TsDelayLegal<B>(policy: TsPolicy, i: nat, a: TsAttempt<B>, start: real)
    ensures TsDelayAfter(TsRetryDelay(policy), i, a, start) >= 0.0
    ensures start + a.pace.service + TsDelayAfter(TsRetryDelay(policy), i, a, start)
         >= NotBefore(TsHeader(a), start + a.pace.service, 1000.0)
  {
    DelaysInBounds(policy.initial, policy.maximum, policy.ratio, i + 1, a.pace.draw);
  }

  /** A wait that ends was never cut: the next send is on time and the wait fits before the deadline. */
  lemma TsWaitWhole<B>(timeout: real, attempt: nat, a: TsAttempt<B>, start: real, wait: real)
    requires 0.0 < timeout <= MAX_TIMER_DELAY_MS && 0.0 <= start && attempt >= 1 && wait >= 0.0
    requires TsWaitEnds(timeout, attempt, a, start, wait)
    ensures TsWokenAt(a, start, wait) >= start + a.pace.service + wait
    ensures wait > 0.0 ==> start + wait < timeout
  {
    if wait > 0.0 {
      TsNeverEarly(0.0, timeout, 0, TsArmedAt(a, start), wait, attempt);
    }
  }

  /** One attempt that led to another: transient, and its wait ran to its end. */
  predicate TsRound<B>(delay: TsDelays, timeout: real, attempt: nat, a: TsAttempt<B>, leg: Leg<real>)
    requires attempt >= 1
  {
    && !a.abortedBefore && TsTransient(a) && leg.wait == TsDelayAfter(delay, attempt - 1, a, leg.start)
    && TsWaitEnds(timeout, attempt, a, leg.start, leg.wait)
  }

  /** When the send after these legs happens. */
  function TsClock<B>(world: seq<TsAttempt<B>>, legs: seq<Leg<real>>): real
    requires |legs| <= |world|
  {
    if legs == [] then 0.0
    else
      var last := legs[|legs| - 1];
      TsWokenAt(world[|legs| - 1], last.start, last.wait)
  }

  /** The legs of a run: each starts when the wait before it is over. */
  predicate TsRan<B>(delay: TsDelays, timeout: real, world: seq<TsAttempt<B>>, legs: seq<Leg<real>>)
    requires |legs| <= |world|
    decreases |legs|
  {
    legs == [] ||
    var n := |legs| - 1;
    && TsRan(delay, timeout, world, legs[..n])
    && legs[n].start == TsClock(world, legs[..n])
    && TsRound(delay, timeout, n + 1, world[n], legs[n])
  }

  /** The send after leg i is no sooner than the server asked after the reply before it. */
  predicate TsOnTime<B>(world: seq<TsAttempt<B>>, legs: seq<Leg<real>>, i: nat)
    requires i < |legs| <= |world|
  {
    TsClock(world, legs[..i + 1]) >= NotBefore(TsHeader(world[i]), legs[i].start + world[i].pace.service, 1000.0)
  }

  /**
    In every run no send is sooner than the server asked, and the waits that ran to their
    end add up to less than the timeout.
   */
  lemma {:induction false} TsTimely<B>(policy: TsPolicy, timeout: real, world: seq<TsAttempt<B>>, legs: seq<Leg<real>>)
    requires 0.0 < timeout <= MAX_TIMER_DELAY_MS && |legs| <= |world| && TsRan(TsRetryDelay(policy), timeout, world, legs)
    ensures 0.0 <= TotalWait(legs) < timeout && TotalWait(legs) <= TsClock(world, legs)
    ensures forall i: nat :: i < |legs| ==> TsOnTime(world, legs, i)
    decreases |legs|
  {
    if legs != [] {
      var n := |legs| - 1;
      var most, leg := legs[..n], legs[n];
      TsTimely(policy, timeout, world, most);
      TsRoundTimely(policy, timeout, n + 1, world[n], leg);
      assert legs[..n + 1] == legs;
      forall i: nat | i < n ensures TsOnTime(world, legs, i) {
        assert most[..i + 1] == legs[..i + 1] && TsOnTime(world, most, i);
      }
    }
  }

  lemma TsRoundTimely<B>(policy: TsPolicy, timeout: real, attempt: nat, a: TsAttempt<B>, leg: Leg<real>)
    requires 0.0 < timeout <= MAX_TIMER_DELAY_MS && attempt >= 1 && leg.start >= 0.0
    requires TsRound(TsRetryDelay(policy), timeout, attempt, a, leg)
    ensures leg.wait >= 0.0 && (leg.wait > 0.0 ==> leg.start + leg.wait < timeout)
    ensures TsWokenAt(a, leg.start, leg.wait) >= leg.start + a.pace.service + leg.wait
    ensures TsWokenAt(a, leg.start, leg.wait) >= NotBefore(TsHeader(a), leg.start + a.pace.service, 1000.0)
  {
    TsDelayLegal(policy, attempt - 1, a, leg.start);
    TsWaitWhole(timeout, attempt, a, leg.start, leg.wait);
  }

  /** What one reply leads to: the end of the call, or (None) the wait before another attempt. */
  method Settle<B>(now: TsAttempt<B>, more: bool, retrySafe: bool) returns (ended: Option<TsResult<B>>)
    ensures ended == if more && retrySafe && TsTransient(now) then None else Some(TsFinal(now))
  {
    var retry := more && retrySafe;
    match now.reply {
      case FetchFailed(abortLike) =>
        if !(retry && !abortLike && !now.abortedAfter) {
          return Some(if abortLike || now.abortedAfter then TsStopped(now) else NetworkError);
        }
      case Redirected =>
        return Some(RedirectRejected);
      case TooLarge =>
        return Some(ResponseTooLarge);
      case InvalidJson(status) =>
        if IsOk(status) {
          return Some(InvalidResponse);
        }
        if !(more && TsRetryable(StatusError(status), retrySafe)) {
          return Some(Api(StatusError(status)));
        }
      case Unreadable(status, abortLike) =>
        if !(retry && (IsOk(status) || TsRetryable(StatusError(status), true)) && !abortLike && !now.abortedAfter) {
          return Some(if abortLike || now.abortedAfter then TsStopped(now) else NetworkError);
        }
      case ErrorReply(error) =>
        if !(more && TsRetryable(error, retrySafe)) {
          return Some(Api(error));
        }
      case OkReply(body) =>
        return Some(Returned(body));
    }
    return None;
  }

  /**
    How a run of `sends` requests ends. It goes on exactly while outcomes are transient,
    attempts are left, nobody aborts and the deadline timer has not fired; then the last
    attempt, the abort or the timeout is the result.
   */
  ghost predicate TsOutcome<B>(delay: TsDelays, timeout: real, retrySafe: bool, world: seq<TsAttempt<B>>, result: TsResult<B>,
                         sends: nat, legs: seq<Leg<real>>)
  {
    && sends - 1 <= |legs| <= sends <= |world| && |legs| < |world|
    && (legs != [] ==> retrySafe)
    && TsRan(delay, timeout, world, legs)
    && var a, start := world[|legs|], TsClock(world, legs);
       if |legs| == sends then a.abortedBefore && result == TsStopped(a)
       else
         && !a.abortedBefore
         && if sends < |world| && retrySafe && TsTransient(a)
            then result == TsInterrupted(a)
                 && !TsWaitEnds(timeout, sends, a, start, TsDelayAfter(delay, sends - 1, a, start))
            else result == TsFinal(a)
  }

  /** The reply to the last send is a success exactly when its body is the result. */
  lemma TsReturnedIff<B>(delay: TsDelays, timeout: real, retrySafe: bool, world: seq<TsAttempt<B>>, result: TsResult<B>,
                         sends: nat, legs: seq<Leg<real>>)
    requires TsOutcome(delay, timeout, retrySafe, world, result, sends, legs)
    ensures result.Returned? ==> sends > 0 && world[sends - 1].reply == OkReply(result.body)
    ensures sends > 0 && world[sends - 1].reply.OkReply? ==> result.Returned?
    ensures !result.AttemptsExhausted?
  {
    if legs != [] {
      assert TsRound(delay, timeout, |legs|, world[|legs| - 1], legs[|legs| - 1]);
    }
  }

  /** The whole call. `sends` lists the requests put on the wire, `legs` the sends that led to another attempt. */
  method Dispatch<R, B>(maxAttempts: nat, delay: TsDelays, timeout: real, retrySafe: bool, request: R, world: seq<TsAttempt<B>>)
    returns (result: TsResult<B>, sends: seq<R>, legs: seq<Leg<real>>)
    requires 1 <= maxAttempts <= MAX_ATTEMPTS
    requires 0.0 < timeout <= MAX_TIMER_DELAY_MS && |world| == maxAttempts
    ensures sends == Repeat(request, |sends|)
    ensures TsOutcome(delay, timeout, retrySafe, world, result, |sends|, legs)
    ensures result.Returned? ==> sends != [] && world[|sends| - 1].reply == OkReply(result.body)
    ensures sends != [] && world[|sends| - 1].reply.OkReply? ==> result.Returned?
    ensures !result.AttemptsExhausted?
  {
    result, sends, legs := AttemptLoop(maxAttempts, delay, timeout, retrySafe, request, world);
    TsReturnedIff(delay, timeout, retrySafe, world, result, |sends|, legs);
  }

  /** `delay` may be any wait policy. */
  method AttemptLoop<R, B>(maxAttempts: nat, delay: TsDelays, timeout: real, retrySafe: bool, request: R, world: seq<TsAttempt<B>>)
    returns (result: TsResult<B>, sends: seq<R>, legs: seq<Leg<real>>)
    requires 1 <= maxAttempts == |world|
    ensures sends == Repeat(request, |sends|)
    ensures TsOutcome(delay, timeout, retrySafe, world, result, |sends|, legs)
  {
    sends, legs := [], [];
    var clock := 0.0;
    for attempt := 1 to maxAttempts + 1
      invariant |sends| == |legs| == attempt - 1
      invariant sends == Repeat(request, attempt - 1)
      invariant attempt > 1 ==> retrySafe
      invariant TsRan(delay, timeout, world, legs) && clock == TsClock(world, legs)
      invariant attempt == maxAttempts + 1 ==> false
    {
      var now := world[attempt - 1];
      if now.abortedBefore {
        return TsStopped(now), sends, legs;
      }
      sends := sends + [request];
      var ended := Settle(now, attempt < maxAttempts, retrySafe);
      if ended.Some? {
        return ended.value, sends, legs;
      }
      var wait := TsDelayAfter(delay, attempt - 1, now, clock);
      if !TsWaitEnds(timeout, attempt, now, clock, wait) {
        return TsInterrupted(now), sends, legs;
      }
      TsLegAdded(delay, timeout, world, legs, Leg(clock, wait));
      clock, legs := TsWokenAt(now, clock, wait), legs + [Leg(clock, wait)];
    }
    return AttemptsExhausted, sends, legs;
  }

  lemma TsLegAdded<B>(delay: TsDelays, timeout: real, world: seq<TsAttempt<B>>, legs: seq<Leg<real>>, leg: Leg<real>)
    requires |legs| < |world| && TsRan(delay, timeout, world, legs) && leg.start == TsClock(world, legs)
    requires TsRound(delay, timeout, |legs| + 1, world[|legs|], leg)
    ensures TsRan(delay, timeout, world, legs + [leg])
  {
    assert (legs + [leg])[..|legs|] == legs;
  }

  // ----- Go: postProtoWithOptions -----

  datatype GoReply<B> =
    | TransportFailed(cancelled: bool)
    | GoTooLarge
    | GoUnreadable(status: int)
    | GoErrorReply(error: ApiError)
    | EmptyBody
    | BadJson
    | GoOk(body: B)

  /** As TsPace, with the time from computing the wait to checking it against the deadline. */
  datatype GoPace = GoPace(header: RetryAfter<int>, draw: real, service: nat, checking: nat, arming: nat, lag: nat)

  /** One attempt, and whether the context ends during the wait after it. */
  datatype GoAttempt<B> = GoAttempt(reply: GoReply<B>, contextEnds: bool, pace: GoPace)

  datatype GoResult<B> =
    | GoReturned(body: B)
    | GoTransport
    | GoSizeLimit
    | GoBodyRead
    | GoApi(error: ApiError)
    | GoInvalidJson
    | GoContext
    | GoExhausted

  predicate GoReadRetryable(status: int) {
    IsOk(status) || TransientStatus(status)
  }

  predicate GoTransient<B>(a: GoAttempt<B>) {
    match a.reply
    case TransportFailed(cancelled) => !cancelled
    case GoUnreadable(status) => GoReadRetryable(status)
    case GoErrorReply(error) => GoRetryable(error, true)
    case _ => false
  }

  function GoFinal<B>(a: GoAttempt<B>): GoResult<B> {
    match a.reply
    case TransportFailed(_) => GoTransport
    case GoTooLarge => GoSizeLimit
    case GoUnreadable(_) => GoBodyRead
    case GoErrorReply(error) => GoApi(error)
    case EmptyBody => GoInvalidJson
    case BadJson => GoInvalidJson
    case GoOk(body) => GoReturned(body)
  }

  function GoHeader<B>(a: GoAttempt<B>): RetryAfter<int> {
    if a.reply.TransportFailed? then Absent else a.pace.header
  }

  /** A client's retryDelay: the wait after attempt i + 1, for a header read at `now`. */
  type GoDelays = (nat, RetryAfter<int>, int, real) -> int

  function GoRetryDelay(policy: GoPolicy): GoDelays {
    (i: nat, header: RetryAfter<int>, now: int, draw: real) => GoWait(policy, i + 1, header, now, draw)
  }

  function GoDelayAfter<B>(delay: GoDelays, i: nat, a: GoAttempt<B>, start: int): int {
    delay(i, GoHeader(a), start + a.pace.service, a.pace.draw)
  }

  /** canWaitForRetry, with the deadline of the context. */
  predicate GoFits<B>(deadline: int, a: GoAttempt<B>, start: int, wait: int) {
    GoCanWait(wait, deadline - (start + a.pace.service + a.pace.checking))
  }

  function GoWokenAt<B>(a: GoAttempt<B>, start: int, wait: int): int {
    start + a.pace.service + a.pace.checking + a.pace.arming + wait + a.pace.lag
  }

  predicate GoRound<B>(delay: GoDelays, deadline: int, attempt: nat, a: GoAttempt<B>, leg: Leg<int>)
    requires attempt >= 1
  {
    && GoTransient(a) && leg.wait == GoDelayAfter(delay, attempt - 1, a, leg.start)
    && GoFits(deadline, a, leg.start, leg.wait) && !a.contextEnds
  }

  function GoClock<B>(world: seq<GoAttempt<B>>, legs: seq<Leg<int>>): int
    requires |legs| <= |world|
  {
    if legs == [] then 0
    else
      var last := legs[|legs| - 1];
      GoWokenAt(world[|legs| - 1], last.start, last.wait)
  }

  predicate GoRan<B>(delay: GoDelays, deadline: int, world: seq<GoAttempt<B>>, legs: seq<Leg<int>>)
    requires |legs| <= |world|
    decreases |legs|
  {
    legs == [] ||
    var n := |legs| - 1;
    && GoRan(delay, deadline, world, legs[..n])
    && legs[n].start == GoClock(world, legs[..n])
    && GoRound(delay, deadline, n + 1, world[n], legs[n])
  }

  /** Go can read the header: none, a date, or a number of 64 bits. */
  predicate GoReadable(header: RetryAfter<int>) {
    header.Seconds? ==> header.n < UINT64
  }

  predicate GoOnTime<B>(world: seq<GoAttempt<B>>, legs: seq<Leg<int>>, i: nat)
    requires i < |legs| <= |world|
  {
    GoReadable(GoHeader(world[i])) ==>
      GoClock(world, legs[..i + 1]) >= GoNotBefore(GoHeader(world[i]), legs[i].start + world[i].pace.service)
  }

  /**
    In every run the waits add up to less than the time to the deadline, and no send is
    sooner than the server asked in a header Go can read.
   */
  lemma {:induction false} GoTimely<B>(policy: GoPolicy, deadline: int, world: seq<GoAttempt<B>>, legs: seq<Leg<int>>)
    requires |legs| < policy.maxAttempts && |legs| <= |world| && GoRan(GoRetryDelay(policy), deadline, world, legs)
    ensures GoTotalWait(legs) <= GoClock(world, legs)
    ensures legs != [] ==> GoTotalWait(legs) < deadline
    ensures forall i: nat :: i < |legs| ==> GoOnTime(world, legs, i)
    decreases |legs|
  {
    if legs != [] {
      var n := |legs| - 1;
      var most, leg := legs[..n], legs[n];
      GoTimely(policy, deadline, world, most);
      GoRoundTimely(policy, deadline, n + 1, world[n], leg);
      assert legs[..n + 1] == legs;
      forall i: nat | i < n ensures GoOnTime(world, legs, i) {
        assert most[..i + 1] == legs[..i + 1] && GoOnTime(world, most, i);
      }
    }
  }

  lemma GoRoundTimely<B>(policy: GoPolicy, deadline: int, attempt: nat, a: GoAttempt<B>, leg: Leg<int>)
    requires 1 <= attempt < policy.maxAttempts
    ensures GoRound(GoRetryDelay(policy), deadline, attempt, a, leg) ==>
              && leg.start + leg.wait < deadline
              && (GoReadable(GoHeader(a)) ==>
                    GoWokenAt(a, leg.start, leg.wait) >= GoNotBefore(GoHeader(a), leg.start + a.pace.service))
  {
    var header, received := GoHeader(a), leg.start + a.pace.service;
    GoDelayInBounds(policy.initial, policy.maximum, policy.ratio, attempt, a.pace.draw);
    if header.Seconds? {
      GoHonoursIff(policy, attempt, header.n, received, a.pace.draw, deadline - received - a.pace.checking);
    }
  }

  /** A wait that is entered, ended by the context or not, still fits with those before it. */
  lemma GoEntersInTime<B>(policy: GoPolicy, deadline: int, world: seq<GoAttempt<B>>, legs: seq<Leg<int>>, wait: int)
    requires |legs| < policy.maxAttempts && |legs| < |world| && GoRan(GoRetryDelay(policy), deadline, world, legs)
    requires GoFits(deadline, world[|legs|], GoClock(world, legs), wait)
    ensures GoTotalWait(legs) + wait < deadline
  {
    GoTimely(policy, deadline, world, legs);
  }

  /** How an attempt ends the call, unless (None) its wait leads to another. */
  function GoEnding<B>(a: GoAttempt<B>, more: bool, retrySafe: bool, fits: bool): Option<GoResult<B>> {
    if !(more && retrySafe && GoTransient(a) && fits) then Some(GoFinal(a))
    else if a.contextEnds then Some(GoContext)
    else None
  }

  method GoSettle<B>(now: GoAttempt<B>, more: bool, retrySafe: bool, fits: bool) returns (ended: Option<GoResult<B>>)
    ensures ended == GoEnding(now, more, retrySafe, fits)
  {
    match now.reply {
      case TransportFailed(cancelled) =>
        if !(retrySafe && more && !cancelled) || !fits {
          return Some(GoTransport);
        }
      case GoTooLarge =>
        return Some(GoSizeLimit);
      case GoUnreadable(status) =>
        if !(retrySafe && more && GoReadRetryable(status)) || !fits {
          return Some(GoBodyRead);
        }
      case GoErrorReply(error) =>
        if !(GoRetryable(error, retrySafe) && more) || !fits {
          return Some(GoApi(error));
        }
      case EmptyBody =>
        return Some(GoInvalidJson);
      case BadJson =>
        return Some(GoInvalidJson);
      case GoOk(body) =>
        return Some(GoReturned(body));
    }
    return if now.contextEnds then Some(GoContext) else None;
  }

  ghost predicate GoOutcome<B>(delay: GoDelays, deadline: int, retrySafe: bool, world: seq<GoAttempt<B>>, result: GoResult<B>,
                         sends: nat, legs: seq<Leg<int>>)
  {
    && sends - 1 == |legs| < |world|
    && (legs != [] ==> retrySafe)
    && GoRan(delay, deadline, world, legs)
    && var a, start := world[|legs|], GoClock(world, legs);
       Some(result) == GoEnding(a, sends < |world|, retrySafe,
                                GoFits(deadline, a, start, GoDelayAfter(delay, |legs|, a, start)))
  }

  /** As `Dispatch`, but a wait that would reach the deadline is refused. */
  method PostProto<R, B>(maxAttempts: nat, delay: GoDelays, deadline: int, retrySafe: bool, request: R, world: seq<GoAttempt<B>>)
    returns (result: GoResult<B>, sends: seq<R>, legs: seq<Leg<int>>)
    requires 1 <= maxAttempts <= MAX_ATTEMPTS
    requires |world| == maxAttempts
    ensures sends == Repeat(request, |sends|)
    ensures GoOutcome(delay, deadline, retrySafe, world, result, |sends|, legs)
    ensures !result.GoExhausted?
  {
    sends, legs := [], [];
    var clock := 0;
    for attempt := 1 to maxAttempts + 1
      invariant |sends| == |legs| == attempt - 1
      invariant sends == Repeat(request, attempt - 1)
      invariant attempt > 1 ==> retrySafe
      invariant GoRan(delay, deadline, world, legs) && clock == GoClock(world, legs)
      invariant attempt == maxAttempts + 1 ==> false
    {
      var now := world[attempt - 1];
      sends := sends + [request];
      var wait := GoDelayAfter(delay, attempt - 1, now, clock);
      var fits := GoFits(deadline, now, clock, wait);
      var ended := GoSettle(now, attempt < maxAttempts, retrySafe, fits);
      if ended.Some? {
        return ended.value, sends, legs;
      }
      GoLegAdded(delay, deadline, world, legs, Leg(clock, wait));
      clock, legs := GoWokenAt(now, clock, wait), legs + [Leg(clock, wait)];
    }
    return GoExhausted, sends, legs;
  }

  lemma GoLegAdded<B>(delay: GoDelays, deadline: int, world: seq<GoAttempt<B>>, legs: seq<Leg<int>>, leg: Leg<int>)
    requires |legs| < |world| && GoRan(delay, deadline, world, legs) && leg.start == GoClock(world, legs)
    requires GoRound(delay, deadline, |legs| + 1, world[|legs|], leg)
    ensures GoRan(delay, deadline, world, legs + [leg])
  {
    assert (legs + [leg])[..|legs|] == legs;
  }

  // ----- Python: _post -----

  datatype PyReply<B> =
    | PyTimeout
    | PyUrlError
    | PyOtherError
    | PyTooLarge
    | PyUnreadable(status: int)
    | PyErrorReply(error: ApiError)
    | PyOk(body: B)

  /** As GoPace, with the time to the second check of the deadline, inside `_wait`. */
  datatype PyPace = PyPace(header: RetryAfter<real>, draw: Draw, service: Span, checking: Span, rechecking: Span,
                           arming: Span, lag: Span)

  /** One attempt, and whether the caller cancels before it or during the wait after it. */
  datatype PyAttempt<B> = PyAttempt(cancelledBefore: bool, reply: PyReply<B>, cancelledInWait: bool, pace: PyPace)

  datatype PyResult<B> =
    | PyReturned(body: B)
    | PyCancelled
    | PyTimedOut
    | PyNetwork
    | PySizeLimit
    | PyApi(error: ApiError)
    | PyRaised
    | PyUnreachable

  predicate PyTransient<B>(a: PyAttempt<B>) {
    match a.reply
    case PyTimeout => true
    case PyUrlError => true
    case PyUnreadable(status) => IsOk(status) || TransientStatus(status)
    case PyErrorReply(error) => PyRetryable(error, true)
    case _ => false
  }

  function PyFinal<B>(a: PyAttempt<B>): PyResult<B> {
    match a.reply
    case PyTimeout => PyTimedOut
    case PyUrlError => PyNetwork
    case PyOtherError => PyRaised
    case PyTooLarge => PySizeLimit
    case PyUnreadable(_) => PyNetwork
    case PyErrorReply(error) => PyApi(error)
    case PyOk(body) => PyReturned(body)
  }

  function PyHeader<B>(a: PyAttempt<B>): RetryAfter<real> {
    if a.reply.PyTimeout? || a.reply.PyUrlError? then Absent else a.pace.header
  }

  /** A client's retryDelay: the wait after attempt i + 1, for a header read at `now`. */
  type PyDelays = (nat, RetryAfter<real>, real, Draw) -> real

  function PyRetryDelay(policy: PyPolicy): PyDelays {
    (i: nat, header: RetryAfter<real>, now: real, draw: Draw) => PyWait(policy, i + 1, header, now, draw)
  }

  function PyDelayAfter<B>(delay: PyDelays, i: nat, a: PyAttempt<B>, start: real): real {
    delay(i, PyHeader(a), start + a.pace.service, a.pace.draw)
  }

  function PyCheckedAt<B>(a: PyAttempt<B>, start: real): real {
    start + a.pace.service + a.pace.checking
  }

  predicate PyCanWait<B>(timeout: real, a: PyAttempt<B>, start: real, wait: real) {
    wait < timeout - PyCheckedAt(a, start)
  }

  /** `_wait`'s own check, on a later reading of the clock. */
  predicate PyMayWait<B>(timeout: real, a: PyAttempt<B>, start: real, wait: real) {
    var remaining := timeout - (PyCheckedAt(a, start) + a.pace.rechecking);
    remaining > 0.0 && wait < remaining
  }

  function PyWokenAt<B>(a: PyAttempt<B>, start: real, wait: real): real {
    PyCheckedAt(a, start) + a.pace.rechecking + a.pace.arming + wait + a.pace.lag
  }

  /** The checks at the top of the loop. */
  predicate PyStarts<B>(timeout: real, a: PyAttempt<B>, start: real) {
    !a.cancelledBefore && timeout - start > 0.0
  }

  /** Why an attempt that does not start ends the call. */
  function PyStopped<B>(a: PyAttempt<B>): PyResult<B> {
    if a.cancelledBefore then PyCancelled else PyTimedOut
  }

  predicate PyRound<B>(delay: PyDelays, timeout: real, attempt: nat, a: PyAttempt<B>, leg: Leg<real>)
    requires attempt >= 1
  {
    && PyStarts(timeout, a, leg.start) && PyTransient(a)
    && leg.wait == PyDelayAfter(delay, attempt - 1, a, leg.start)
    && PyCanWait(timeout, a, leg.start, leg.wait) && PyMayWait(timeout, a, leg.start, leg.wait) && !a.cancelledInWait
  }

  function PyClock<B>(world: seq<PyAttempt<B>>, legs: seq<Leg<real>>): real
    requires |legs| <= |world|
  {
    if legs == [] then 0.0
    else
      var last := legs[|legs| - 1];
      PyWokenAt(world[|legs| - 1], last.start, last.wait)
  }

  predicate PyRan<B>(delay: PyDelays, timeout: real, world: seq<PyAttempt<B>>, legs: seq<Leg<real>>)
    requires |legs| <= |world|
    decreases |legs|
  {
    legs == [] ||
    var n := |legs| - 1;
    && PyRan(delay, timeout, world, legs[..n])
    && legs[n].start == PyClock(world, legs[..n])
    && PyRound(delay, timeout, n + 1, world[n], legs[n])
  }

  /** Python keeps the header: none, a date, or a number a double can hold. */
  predicate PyReadable(header: RetryAfter<real>) {
    header.Seconds? ==> header.n < FLOAT_OVERFLOW
  }

  predicate PyOnTime<B>(world: seq<PyAttempt<B>>, legs: seq<Leg<real>>, i: nat)
    requires i < |legs| <= |world|
  {
    PyReadable(PyHeader(world[i])) ==>
      PyClock(world, legs[..i + 1]) >= NotBefore(PyHeader(world[i]), legs[i].start + world[i].pace.service, 1.0)
  }

  /** The waits of a run fit before the deadline, whatever they are. */
  lemma {:induction false} PyWaitsFit<B>(delay: PyDelays, timeout: real, world: seq<PyAttempt<B>>, legs: seq<Leg<real>>)
    requires |legs| <= |world| && PyRan(delay, timeout, world, legs)
    ensures TotalWait(legs) <= PyClock(world, legs)
    ensures legs != [] ==> TotalWait(legs) < timeout
    decreases |legs|
  {
    if legs != [] {
      PyWaitsFit(delay, timeout, world, legs[..|legs| - 1]);
    }
  }

  lemma {:induction false} PyRoundAt<B>(delay: PyDelays, timeout: real, world: seq<PyAttempt<B>>, legs: seq<Leg<real>>, i: nat)
    requires i < |legs| <= |world| && PyRan(delay, timeout, world, legs)
    ensures PyRound(delay, timeout, i + 1, world[i], legs[i])
    decreases |legs|
  {
    if i < |legs| - 1 {
      PyRoundAt(delay, timeout, world, legs[..|legs| - 1], i);
    }
  }

  /** As `GoTimely`, for Python. */
  lemma PyTimely<B>(policy: PyPolicy, timeout: real, world: seq<PyAttempt<B>>, legs: seq<Leg<real>>)
    requires |legs| <= |world| && PyRan(PyRetryDelay(policy), timeout, world, legs)
    ensures legs != [] ==> TotalWait(legs) < timeout
    ensures forall i: nat :: i < |legs| ==> PyOnTime(world, legs, i)
  {
    PyWaitsFit(PyRetryDelay(policy), timeout, world, legs);
    forall i: nat | i < |legs| ensures PyOnTime(world, legs, i) {
      PyRoundAt(PyRetryDelay(policy), timeout, world, legs, i);
      PyRoundWaits(policy, timeout, i, world[i], legs[i]);
      assert legs[..i + 1][i] == legs[i];
    }
  }

  lemma PyRoundWaits<B>(policy: PyPolicy, timeout: real, i: nat, a: PyAttempt<B>, leg: Leg<real>)
    requires PyRound(PyRetryDelay(policy), timeout, i + 1, a, leg)
    ensures PyReadable(PyHeader(a)) ==>
              PyWokenAt(a, leg.start, leg.wait) >= NotBefore(PyHeader(a), leg.start + a.pace.service, 1.0)
  {
    PyDelayLegal(policy, i, PyHeader(a), leg.start + a.pace.service, a.pace.draw);
    PyWaitLegal(policy, i + 1, PyHeader(a), leg.start + a.pace.service, a.pace.draw);
    PyWokenOnTime(a, leg.start, leg.wait);
  }

  lemma PyDelayLegal(policy: PyPolicy, i: nat, header: RetryAfter<real>, now: real, draw: Draw)
    ensures PyRetryDelay(policy)(i, header, now, draw) == PyWait(policy, i + 1, header, now, draw)
  {
  }

  lemma PyWokenOnTime<B>(a: PyAttempt<B>, start: real, wait: real)
    requires wait >= 0.0
    requires PyHeader(a).Seconds? && PyReadable(PyHeader(a)) ==> wait == PyHeader(a).n as real
    requires PyHeader(a).Date? ==> start + a.pace.service + wait >= PyHeader(a).at
    ensures PyReadable(PyHeader(a)) ==>
              PyWokenAt(a, start, wait) >= NotBefore(PyHeader(a), start + a.pace.service, 1.0)
  {
  }

  /** A wait that is entered, cancelled or not, still fits with those before it. */
  lemma PyEntersInTime<B>(delay: PyDelays, timeout: real, world: seq<PyAttempt<B>>, legs: seq<Leg<real>>, wait: real)
    requires |legs| < |world| && PyRan(delay, timeout, world, legs)
    requires PyMayWait(timeout, world[|legs|], PyClock(world, legs), wait)
    ensures TotalWait(legs) + wait < timeout
  {
    PyWaitsFit(delay, timeout, world, legs);
  }

  method PySettle<B>(now: PyAttempt<B>, more: bool, retrySafe: bool, canWait: bool) returns (ended: Option<PyResult<B>>)
    ensures ended == if more && retrySafe && PyTransient(now) && canWait then None else Some(PyFinal(now))
  {
    var retry := retrySafe && more;
    match now.reply {
      case PyTimeout =>
        if !(retry && canWait) {
          return Some(PyTimedOut);
        }
      case PyUrlError =>
        if !(retry && canWait) {
          return Some(PyNetwork);
        }
      case PyOtherError =>
        return Some(PyRaised);
      case PyTooLarge =>
        return Some(PySizeLimit);
      case PyUnreadable(status) =>
        if !(retry && (IsOk(status) || TransientStatus(status)) && canWait) {
          return Some(PyNetwork);
        }
      case PyErrorReply(error) =>
        if !(retry && PyRetryable(error, true) && canWait) {
          return Some(PyApi(error));
        }
      case PyOk(body) =>
        return Some(PyReturned(body));
    }
    return None;
  }

  ghost predicate PyOutcome<B>(delay: PyDelays, timeout: real, retrySafe: bool, world: seq<PyAttempt<B>>, result: PyResult<B>,
                         sends: nat, legs: seq<Leg<real>>)
  {
    && sends - 1 <= |legs| <= sends <= |world| && |legs| < |world|
    && (legs != [] ==> retrySafe)
    && PyRan(delay, timeout, world, legs)
    && var a, start := world[|legs|], PyClock(world, legs);
       var wait := PyDelayAfter(delay, |legs|, a, start);
       if |legs| == sends then !PyStarts(timeout, a, start) && result == PyStopped(a)
       else
         && PyStarts(timeout, a, start)
         && if sends < |world| && retrySafe && PyTransient(a) && PyCanWait(timeout, a, start, wait)
            then if PyMayWait(timeout, a, start, wait) then a.cancelledInWait && result == PyCancelled
                 else result == PyTimedOut
            else result == PyFinal(a)
  }

  method Post<R, B>(maxAttempts: nat, delay: PyDelays, timeout: real, retrySafe: bool, request: R, world: seq<PyAttempt<B>>)
    returns (result: PyResult<B>, sends: seq<R>, legs: seq<Leg<real>>)
    requires 1 <= maxAttempts <= MAX_ATTEMPTS
    requires timeout > 0.0 && |world| == maxAttempts
    ensures sends == Repeat(request, |sends|)
    ensures PyOutcome(delay, timeout, retrySafe, world, result, |sends|, legs)
    ensures !result.PyUnreachable?
  {
    sends, legs := [], [];
    var clock := 0.0;
    var allowed := if retrySafe then maxAttempts else 1;
    for attempt := 1 to allowed + 1
      invariant |sends| == |legs| == attempt - 1
      invariant sends == Repeat(request, attempt - 1)
      invariant attempt > 1 ==> retrySafe
      invariant PyRan(delay, timeout, world, legs) && clock == PyClock(world, legs)
      invariant attempt == allowed + 1 ==> false
    {
      var now := world[attempt - 1];
      if now.cancelledBefore {
        return PyCancelled, sends, legs;
      }
      if timeout - clock <= 0.0 {
        return PyTimedOut, sends, legs;
      }
      sends := sends + [request];
      var wait := PyDelayAfter(delay, attempt - 1, now, clock);
      var ended := PySettle(now, attempt < allowed, retrySafe, PyCanWait(timeout, now, clock, wait));
      if ended.Some? {
        return ended.value, sends, legs;
      }
      if !PyMayWait(timeout, now, clock, wait) {
        return PyTimedOut, sends, legs;
      }
      if now.cancelledInWait {
        return PyCancelled, sends, legs;
      }
      PyLegAdded(delay, timeout, world, legs, Leg(clock, wait));
      clock, legs := PyWokenAt(now, clock, wait), legs + [Leg(clock, wait)];
    }
    return PyUnreachable, sends, legs;
  }

  lemma PyLegAdded<B>(delay: PyDelays, timeout: real, world: seq<PyAttempt<B>>, legs: seq<Leg<real>>, leg: Leg<real>)
    requires |legs| < |world| && PyRan(delay, timeout, world, legs) && leg.start == PyClock(world, legs)
    requires PyRound(delay, timeout, |legs| + 1, world[|legs|], leg)
    ensures PyRan(delay, timeout, world, legs + [leg])
  {
    assert (legs + [leg])[..|legs|] == legs;
  }
}

/**
  What a call comes to, by the replies it meets: which replies are followed by another
  attempt, and what the caller gets from the first one that is not. Replies, statuses, codes
  and reasons are listed here one by one.
 */
module RetryRuns {
  import opened Common
  import opened Backoff
  import opened Retry

  // ----- Errors worth another attempt -----

  /** The reasons after which the server asks for another attempt, each with its code. */
  predicate TransientReason(reason: string, code: Option<string>) {
    || (reason == "AUTHORIZATION_DEPENDENCY_UNAVAILABLE" && code == Some("unavailable"))
    || (reason == "BACKPRESSURE" && code == Some("resource_exhausted"))
    || (reason == "INTEGRATION_UNAVAILABLE" && code == Some("unavailable"))
  }

  predicate PassingStatus(status: int) {
    status == 408 || status == 429 || status == 502 || status == 503 || status == 504
  }

  /** An error without a reason, by its code or else by its status. */
  predicate PassingError(e: ApiError) {
    if e.code == None then PassingStatus(e.status)
    else e.code == Some("deadline_exceeded") || e.code == Some("resource_exhausted") || e.code == Some("unavailable")
  }

  predicate FromServer(e: ApiError) {
    e.domain == Some("medallion.jimtech.io") && e.reason.Some? && TransientReason(e.reason.value, e.code)
  }

  predicate TsAsks(e: ApiError) {
    FromServer(e) || (e.reason == None && PassingError(e))
  }

  predicate PyAsks(e: ApiError) {
    FromServer(e) || ((e.reason == None || e.reason == Some("")) && PassingError(e))
  }

  predicate GoAsks(e: ApiError) {
    || FromServer(e)
    || ((e.reason == None || e.reason == Some("")) && (e.domain == None || e.domain == Some("")) && PassingError(e))
  }

  /** Each oracle says yes to exactly these errors. */
  lemma OraclesListed(e: ApiError, safe: bool)
    ensures TsRetryable(e, safe) <==> safe && TsAsks(e)
    ensures PyRetryable(e, safe) <==> safe && PyAsks(e)
    ensures GoRetryable(e, safe) <==> safe && GoAsks(e)
  {
    if e.reason.Some? {
      PoliciesListed(e.reason.value, e.code);
    }
    StatusListed(e.status);
  }

  lemma PoliciesListed(reason: string, code: Option<string>)
    ensures TransientReason(reason, code) <==>
            && reason in POLICIES && POLICIES[reason].transient && POLICIES[reason].reuseKey
            && code == Some(POLICIES[reason].code)
    ensures "" !in POLICIES && !TransientReason("", code)
  {
  }

  lemma StatusListed(status: int)
    ensures TransientStatus(status) <==> PassingStatus(status)
  {
  }

  // ----- The clients' own waits -----

  /** The wait after attempt i + 1: what the server asks for, or else backoff number i + 1. */
  lemma TsClientWaits(policy: TsPolicy, i: nat, header: RetryAfter<real>, now: real, draw: Draw)
    ensures TsRetryDelay(policy)(i, header, now, draw)
         == match header
            case Absent => TsDelay(policy.initial, policy.maximum, policy.ratio, i + 1, draw)
            case Seconds(n) => 1000.0 * n as real
            case Date(at) => if at <= now then 0.0 else at - now
  {
  }

  lemma PyClientWaits(policy: PyPolicy, i: nat, header: RetryAfter<real>, now: real, draw: Draw)
    requires header.Seconds? ==> header.n < FLOAT_OVERFLOW
    ensures PyRetryDelay(policy)(i, header, now, draw)
         == match header
            case Absent => PyDelay(policy.initial, policy.maximum, policy.ratio, i + 1, draw)
            case Seconds(n) => n as real
            case Date(at) => if at <= now then 0.0 else at - now
  {
  }

  lemma GoClientWaits(policy: GoPolicy, i: nat, header: RetryAfter<int>, now: int, draw: real)
    requires header.Seconds? ==> header.n * 1_000_000_000 <= MAX_DURATION
    requires header.Date? ==> header.at - now <= MAX_DURATION
    ensures GoRetryDelay(policy)(i, header, now, draw)
         == match header
            case Absent => GoDelay(policy.initial, policy.maximum, policy.ratio, i + 1, draw)
            case Seconds(n) => n * 1_000_000_000
            case Date(at) => if at <= now then 0 else at - now
  {
  }

  // ----- TypeScript -----

  /** The replies after which a retry-safe call sends again. */
  predicate TsRepeats<B>(a: TsAttempt<B>) {
    || (a.reply.FetchFailed? && !a.reply.abortLike && !a.abortedAfter)
    || (a.reply.Unreadable? && (200 <= a.reply.status <= 299 || PassingStatus(a.reply.status))
        && !a.reply.abortLike && !a.abortedAfter)
    || (a.reply.InvalidJson? && PassingStatus(a.reply.status))
    || (a.reply.ErrorReply? && TsAsks(a.reply.error))
  }

  lemma TsRepeatsIff<B>(a: TsAttempt<B>)
    ensures TsTransient(a) <==> TsRepeats(a)
  {
    match a.reply
    case InvalidJson(status) =>
      OraclesListed(StatusError(status), true);
      if IsOk(status) {
        StatusListed(status);
      }
    case Unreadable(status, _) => OraclesListed(StatusError(status), true);
    case ErrorReply(error) => OraclesListed(error, true);
    case _ =>
  }

  function TsAsked<B>(delay: TsDelays, i: nat, a: TsAttempt<B>, start: real): real {
    delay(i, if a.reply.FetchFailed? then Absent else a.pace.header, start + a.pace.service, a.pace.draw)
  }

  /** Attempt i + 1, sent at `start`, leads to another: nobody aborts and the wait is over before the deadline. */
  predicate TsGoesOn<B>(delay: TsDelays, timeout: real, i: nat, a: TsAttempt<B>, start: real) {
    var wait := TsAsked(delay, i, a, start);
    && !a.abortedBefore && TsRepeats(a) && !a.abortedInWait
    && (wait <= 0.0 || start + a.pace.service + a.pace.arming + wait < timeout)
  }

  /** When attempt i + 1 is sent, if those before it all lead on. */
  function TsStart<B>(delay: TsDelays, world: seq<TsAttempt<B>>, i: nat): real
    requires i <= |world|
  {
    if i == 0 then 0.0
    else
      var a, start := world[i - 1], TsStart(delay, world, i - 1);
      TsNext(a, start, TsAsked(delay, i - 1, a, start))
  }

  /** The first k attempts all lead on. */
  predicate TsAllGoOn<B>(delay: TsDelays, timeout: real, world: seq<TsAttempt<B>>, k: nat)
    requires k <= |world|
  {
    k == 0 || (TsAllGoOn(delay, timeout, world, k - 1)
               && TsGoesOn(delay, timeout, k - 1, world[k - 1], TsStart(delay, world, k - 1)))
  }

  lemma {:induction false} TsAllAt<B>(delay: TsDelays, timeout: real, world: seq<TsAttempt<B>>, k: nat, i: nat)
    requires i < k <= |world| && TsAllGoOn(delay, timeout, world, k)
    ensures TsGoesOn(delay, timeout, i, world[i], TsStart(delay, world, i))
  {
    if i < k - 1 {
      TsAllAt(delay, timeout, world, k - 1, i);
    }
  }

  /** What a reply gives the caller when no further attempt follows. */
  ghost predicate TsGives<B>(a: TsAttempt<B>, result: TsResult<B>) {
    match a.reply
    case OkReply(body) => result == Returned(body)
    case ErrorReply(error) => result == Api(error)
    case Redirected => result == RedirectRejected
    case TooLarge => result == ResponseTooLarge
    case InvalidJson(status) =>
      result == if 200 <= status <= 299 then InvalidResponse else Api(ApiError(status, None, None, None))
    case Unreadable(_, abortLike) => TsLostGives(a, abortLike, result)
    case FetchFailed(abortLike) => TsLostGives(a, abortLike, result)
  }

  ghost predicate TsLostGives<B>(a: TsAttempt<B>, abortLike: bool, result: TsResult<B>) {
    if !abortLike && !a.abortedAfter then result == NetworkError
    else if a.expired then result == TimedOut
    else result == Aborted
  }

  lemma TsGivesIff<B>(a: TsAttempt<B>, result: TsResult<B>)
    ensures result == TsFinal(a) <==> TsGives(a, result)
  {
  }

  lemma TsGoesOnIff<B>(delay: TsDelays, timeout: real, i: nat, a: TsAttempt<B>, start: real)
    requires 0.0 < timeout <= MAX_TIMER_DELAY_MS && start >= 0.0
    ensures TsGoesOn(delay, timeout, i, a, start) <==>
            && !a.abortedBefore && TsTransient(a)
            && TsWaitEnds(timeout, i + 1, a, start, TsDelayAfter(delay, i, a, start))
  {
    TsRepeatsIff(a);
  }

  /** The send after an attempt that leads on. */
  function TsNext<B>(a: TsAttempt<B>, start: real, wait: real): real {
    start + a.pace.service + a.pace.arming + (if wait > 0.0 then wait else 0.0) + a.pace.lag
  }

  lemma TsWokenNext<B>(delay: TsDelays, timeout: real, i: nat, a: TsAttempt<B>, start: real)
    requires 0.0 < timeout <= MAX_TIMER_DELAY_MS && start >= 0.0 && TsGoesOn(delay, timeout, i, a, start)
    ensures TsWokenAt(a, start, TsDelayAfter(delay, i, a, start)) == TsNext(a, start, TsAsked(delay, i, a, start)) >= 0.0
  {
  }

  lemma TsRanStep<B>(delay: TsDelays, timeout: real, world: seq<TsAttempt<B>>, legs: seq<Leg<real>>)
    requires 0 < |legs| <= |world| && TsRan(delay, timeout, world, legs)
    ensures var n := |legs| - 1;
            && TsRan(delay, timeout, world, legs[..n])
            && legs[n].start == TsClock(world, legs[..n])
            && TsRound(delay, timeout, n + 1, world[n], legs[n])
            && TsClock(world, legs) == TsWokenAt(world[n], legs[n].start, legs[n].wait)
  {
  }

  /** The legs of a run are those of the attempts that lead on. */
  lemma {:induction false} TsLegsAre<B>(delay: TsDelays, timeout: real, world: seq<TsAttempt<B>>, legs: seq<Leg<real>>)
    requires 0.0 < timeout <= MAX_TIMER_DELAY_MS && |legs| <= |world| && TsRan(delay, timeout, world, legs)
    ensures TsClock(world, legs) == TsStart(delay, world, |legs|) >= 0.0
    ensures TsAllGoOn(delay, timeout, world, |legs|)
    decreases |legs|
  {
    if legs != [] {
      var n := |legs| - 1;
      TsRanStep(delay, timeout, world, legs);
      TsLegsAre(delay, timeout, world, legs[..n]);
      TsGoesOnIff(delay, timeout, n, world[n], legs[n].start);
      TsWokenNext(delay, timeout, n, world[n], legs[n].start);
    }
  }

  /**
    The whole call, by its first attempt that does not lead on. Before it every attempt is
    sent; it is sent itself unless the caller aborts first; and what the caller gets is an
    abort or a timeout, or what the reply to it gives.
   */
  lemma TsSettles<B>(delay: TsDelays, timeout: real, retrySafe: bool, world: seq<TsAttempt<B>>, result: TsResult<B>,
                     sends: nat, legs: seq<Leg<real>>, k: nat)
    requires 0.0 < timeout <= MAX_TIMER_DELAY_MS
    requires TsOutcome(delay, timeout, retrySafe, world, result, sends, legs)
    requires k < |world| && (k > 0 ==> retrySafe) && TsAllGoOn(delay, timeout, world, k)
    requires !(k + 1 < |world| && retrySafe && TsGoesOn(delay, timeout, k, world[k], TsStart(delay, world, k)))
    ensures sends == if world[k].abortedBefore then k else k + 1
    ensures var a := world[k];
            if a.abortedBefore then result == (if a.expired then TimedOut else Aborted)
            else if k + 1 < |world| && retrySafe && TsRepeats(a)
            then result == (if a.abortedInWait && !a.expired then Aborted else TimedOut)
            else TsGives(a, result)
  {
    TsLegsAre(delay, timeout, world, legs);
    TsLegsEnd(delay, timeout, retrySafe, world, result, sends, legs);
    TsSameEnd(delay, timeout, retrySafe, world, k, |legs|);
    TsRepeatsIff(world[k]);
    TsGivesIff(world[k], result);
  }

  /** The attempt after the last leg does not lead on. */
  lemma TsLegsEnd<B>(delay: TsDelays, timeout: real, retrySafe: bool, world: seq<TsAttempt<B>>, result: TsResult<B>,
                     sends: nat, legs: seq<Leg<real>>)
    requires 0.0 < timeout <= MAX_TIMER_DELAY_MS
    requires TsOutcome(delay, timeout, retrySafe, world, result, sends, legs)
    ensures |legs| > 0 ==> retrySafe
    ensures var n := |legs|;
            !(n + 1 < |world| && retrySafe && TsGoesOn(delay, timeout, n, world[n], TsStart(delay, world, n)))
  {
    var n := |legs|;
    TsLegsAre(delay, timeout, world, legs);
    TsGoesOnIff(delay, timeout, n, world[n], TsStart(delay, world, n));
  }

  lemma TsSameEnd<B>(delay: TsDelays, timeout: real, retrySafe: bool, world: seq<TsAttempt<B>>, k: nat, n: nat)
    requires k < |world| && n < |world| && (k > 0 ==> retrySafe) && (n > 0 ==> retrySafe)
    requires TsAllGoOn(delay, timeout, world, k) && TsAllGoOn(delay, timeout, world, n)
    requires !(k + 1 < |world| && retrySafe && TsGoesOn(delay, timeout, k, world[k], TsStart(delay, world, k)))
    requires !(n + 1 < |world| && retrySafe && TsGoesOn(delay, timeout, n, world[n], TsStart(delay, world, n)))
    ensures k == n
  {
    if k < n {
      TsAllAt(delay, timeout, world, n, k);
    } else if n < k {
      TsAllAt(delay, timeout, world, k, n);
    }
  }

  /** After k attempts that lead on and a success, k + 1 requests were sent and its body is returned. */
  lemma TsCompletes<B>(delay: TsDelays, timeout: real, retrySafe: bool, world: seq<TsAttempt<B>>, result: TsResult<B>,
                       sends: nat, legs: seq<Leg<real>>, k: nat, body: B)
    requires 0.0 < timeout <= MAX_TIMER_DELAY_MS
    requires TsOutcome(delay, timeout, retrySafe, world, result, sends, legs)
    requires k < |world| && (k > 0 ==> retrySafe) && TsAllGoOn(delay, timeout, world, k)
    requires !world[k].abortedBefore && world[k].reply == OkReply(body)
    ensures sends == k + 1 && result == Returned(body)
  {
    TsSettles(delay, timeout, retrySafe, world, result, sends, legs, k);
  }

  // ----- Go -----

  predicate GoRepeats<B>(a: GoAttempt<B>) {
    || (a.reply.TransportFailed? && !a.reply.cancelled)
    || (a.reply.GoUnreadable? && (200 <= a.reply.status <= 299 || PassingStatus(a.reply.status)))
    || (a.reply.GoErrorReply? && GoAsks(a.reply.error))
  }

  lemma GoRepeatsIff<B>(a: GoAttempt<B>)
    ensures GoTransient(a) <==> GoRepeats(a)
  {
    match a.reply
    case GoUnreadable(status) => StatusListed(status);
    case GoErrorReply(error) => OraclesListed(error, true);
    case _ =>
  }

  function GoAsked<B>(delay: GoDelays, i: nat, a: GoAttempt<B>, start: int): int {
    delay(i, if a.reply.TransportFailed? then Absent else a.pace.header, start + a.pace.service, a.pace.draw)
  }

  /** The wait after the reply is over before the deadline, the largest duration counting as none. */
  predicate GoWaits<B>(delay: GoDelays, deadline: int, i: nat, a: GoAttempt<B>, start: int) {
    var wait := GoAsked(delay, i, a, start);
    start + a.pace.service + a.pace.checking + wait < deadline && wait < 0x7FFF_FFFF_FFFF_FFFF
  }

  predicate GoGoesOn<B>(delay: GoDelays, deadline: int, i: nat, a: GoAttempt<B>, start: int) {
    GoRepeats(a) && GoWaits(delay, deadline, i, a, start) && !a.contextEnds
  }

  function GoNext<B>(a: GoAttempt<B>, start: int, wait: int): int {
    start + a.pace.service + a.pace.checking + a.pace.arming + wait + a.pace.lag
  }

  /** When attempt i + 1 is sent, if those before it all lead on. */
  function GoStart<B>(delay: GoDelays, world: seq<GoAttempt<B>>, i: nat): int
    requires i <= |world|
  {
    if i == 0 then 0
    else
      var a, start := world[i - 1], GoStart(delay, world, i - 1);
      GoNext(a, start, GoAsked(delay, i - 1, a, start))
  }

  predicate GoAllGoOn<B>(delay: GoDelays, deadline: int, world: seq<GoAttempt<B>>, k: nat)
    requires k <= |world|
  {
    k == 0 || (GoAllGoOn(delay, deadline, world, k - 1)
               && GoGoesOn(delay, deadline, k - 1, world[k - 1], GoStart(delay, world, k - 1)))
  }

  lemma {:induction false} GoAllAt<B>(delay: GoDelays, deadline: int, world: seq<GoAttempt<B>>, k: nat, i: nat)
    requires i < k <= |world| && GoAllGoOn(delay, deadline, world, k)
    ensures GoGoesOn(delay, deadline, i, world[i], GoStart(delay, world, i))
  {
    if i < k - 1 {
      GoAllAt(delay, deadline, world, k - 1, i);
    }
  }

  ghost predicate GoGives<B>(a: GoAttempt<B>, result: GoResult<B>) {
    match a.reply
    case GoOk(body) => result == GoReturned(body)
    case GoErrorReply(error) => result == GoApi(error)
    case EmptyBody => result == GoInvalidJson
    case BadJson => result == GoInvalidJson
    case GoTooLarge => result == GoSizeLimit
    case GoUnreadable(_) => result == GoBodyRead
    case TransportFailed(_) => result == GoTransport
  }

  lemma GoGivesIff<B>(a: GoAttempt<B>, result: GoResult<B>)
    ensures result == GoFinal(a) <==> GoGives(a, result)
  {
  }

  lemma GoWaitsIff<B>(delay: GoDelays, deadline: int, i: nat, a: GoAttempt<B>, start: int)
    ensures GoFits(deadline, a, start, GoDelayAfter(delay, i, a, start)) <==> GoWaits(delay, deadline, i, a, start)
  {
  }

  lemma GoRanStep<B>(delay: GoDelays, deadline: int, world: seq<GoAttempt<B>>, legs: seq<Leg<int>>)
    requires 0 < |legs| <= |world| && GoRan(delay, deadline, world, legs)
    ensures var n := |legs| - 1;
            && GoRan(delay, deadline, world, legs[..n])
            && legs[n].start == GoClock(world, legs[..n])
            && GoRound(delay, deadline, n + 1, world[n], legs[n])
            && GoClock(world, legs) == GoNext(world[n], legs[n].start, GoAsked(delay, n, world[n], legs[n].start))
  {
  }

  lemma {:induction false} GoLegsAre<B>(delay: GoDelays, deadline: int, world: seq<GoAttempt<B>>, legs: seq<Leg<int>>)
    requires |legs| <= |world| && GoRan(delay, deadline, world, legs)
    ensures GoClock(world, legs) == GoStart(delay, world, |legs|)
    ensures GoAllGoOn(delay, deadline, world, |legs|)
    decreases |legs|
  {
    if legs != [] {
      var n := |legs| - 1;
      GoRanStep(delay, deadline, world, legs);
      GoLegsAre(delay, deadline, world, legs[..n]);
      GoRepeatsIff(world[n]);
      GoWaitsIff(delay, deadline, n, world[n], legs[n].start);
    }
  }

  /**
    The whole call, by its first attempt that does not lead on: it is sent, and the caller gets
    what the reply gives, or the end of the context when that comes during a wait that fits.
   */
  lemma GoSettles<B>(delay: GoDelays, deadline: int, retrySafe: bool, world: seq<GoAttempt<B>>, result: GoResult<B>,
                     sends: nat, legs: seq<Leg<int>>, k: nat)
    requires GoOutcome(delay, deadline, retrySafe, world, result, sends, legs)
    requires k < |world| && (k > 0 ==> retrySafe) && GoAllGoOn(delay, deadline, world, k)
    requires !(k + 1 < |world| && retrySafe && GoGoesOn(delay, deadline, k, world[k], GoStart(delay, world, k)))
    ensures sends == k + 1
    ensures if k + 1 < |world| && retrySafe && GoRepeats(world[k])
               && GoWaits(delay, deadline, k, world[k], GoStart(delay, world, k))
            then result == GoContext
            else GoGives(world[k], result)
  {
    GoLegsAre(delay, deadline, world, legs);
    GoLegsEnd(delay, deadline, retrySafe, world, result, sends, legs);
    if k < |legs| {
      GoAllAt(delay, deadline, world, |legs|, k);
    } else if |legs| < k {
      GoAllAt(delay, deadline, world, k, |legs|);
    }
    GoGivesIff(world[k], result);
  }

  lemma GoLegsEnd<B>(delay: GoDelays, deadline: int, retrySafe: bool, world: seq<GoAttempt<B>>, result: GoResult<B>,
                     sends: nat, legs: seq<Leg<int>>)
    requires GoOutcome(delay, deadline, retrySafe, world, result, sends, legs)
    ensures var n := |legs|;
            var start := GoStart(delay, world, n);
            && !(n + 1 < |world| && retrySafe && GoGoesOn(delay, deadline, n, world[n], start))
            && if n + 1 < |world| && retrySafe && GoRepeats(world[n]) && GoWaits(delay, deadline, n, world[n], start)
               then result == GoContext else result == GoFinal(world[n])
  {
    var n := |legs|;
    GoLegsAre(delay, deadline, world, legs);
    GoRepeatsIff(world[n]);
    GoWaitsIff(delay, deadline, n, world[n], GoStart(delay, world, n));
  }

  lemma GoCompletes<B>(delay: GoDelays, deadline: int, retrySafe: bool, world: seq<GoAttempt<B>>, result: GoResult<B>,
                       sends: nat, legs: seq<Leg<int>>, k: nat, body: B)
    requires GoOutcome(delay, deadline, retrySafe, world, result, sends, legs)
    requires k < |world| && (k > 0 ==> retrySafe) && GoAllGoOn(delay, deadline, world, k)
    requires world[k].reply == GoOk(body)
    ensures sends == k + 1 && result == GoReturned(body)
  {
    GoSettles(delay, deadline, retrySafe, world, result, sends, legs, k);
  }

  // ----- Python -----

  predicate PyRepeats<B>(a: PyAttempt<B>) {
    || a.reply.PyTimeout?
    || a.reply.PyUrlError?
    || (a.reply.PyUnreadable? && (200 <= a.reply.status <= 299 || PassingStatus(a.reply.status)))
    || (a.reply.PyErrorReply? && PyAsks(a.reply.error))
  }

  lemma PyRepeatsIff<B>(a: PyAttempt<B>)
    ensures PyTransient(a) <==> PyRepeats(a)
  {
    match a.reply
    case PyUnreadable(status) => StatusListed(status);
    case PyErrorReply(error) => OraclesListed(error, true);
    case _ =>
  }

  function PyAsked<B>(delay: PyDelays, i: nat, a: PyAttempt<B>, start: real): real {
    delay(i, if a.reply.PyTimeout? || a.reply.PyUrlError? then Absent else a.pace.header, start + a.pace.service,
          a.pace.draw)
  }

  /** The wait is over before the deadline, seen from the first reading of the clock. */
  predicate PyWaits<B>(delay: PyDelays, timeout: real, i: nat, a: PyAttempt<B>, start: real) {
    start + a.pace.service + a.pace.checking + PyAsked(delay, i, a, start) < timeout
  }

  /** And from the second, before which the deadline itself has not passed. */
  predicate PyStillWaits<B>(delay: PyDelays, timeout: real, i: nat, a: PyAttempt<B>, start: real) {
    var read := start + a.pace.service + a.pace.checking + a.pace.rechecking;
    read < timeout && read + PyAsked(delay, i, a, start) < timeout
  }

  predicate PyGoesOn<B>(delay: PyDelays, timeout: real, i: nat, a: PyAttempt<B>, start: real) {
    && !a.cancelledBefore && start < timeout && PyRepeats(a)
    && PyWaits(delay, timeout, i, a, start) && PyStillWaits(delay, timeout, i, a, start) && !a.cancelledInWait
  }

  function PyNext<B>(a: PyAttempt<B>, start: real, wait: real): real {
    start + a.pace.service + a.pace.checking + a.pace.rechecking + a.pace.arming + wait + a.pace.lag
  }

  /** When attempt i + 1 is sent, if those before it all lead on. */
  function PyStart<B>(delay: PyDelays, world: seq<PyAttempt<B>>, i: nat): real
    requires i <= |world|
  {
    if i == 0 then 0.0
    else
      var a, start := world[i - 1], PyStart(delay, world, i - 1);
      PyNext(a, start, PyAsked(delay, i - 1, a, start))
  }

  predicate PyAllGoOn<B>(delay: PyDelays, timeout: real, world: seq<PyAttempt<B>>, k: nat)
    requires k <= |world|
  {
    k == 0 || (PyAllGoOn(delay, timeout, world, k - 1)
               && PyGoesOn(delay, timeout, k - 1, world[k - 1], PyStart(delay, world, k - 1)))
  }

  lemma {:induction false} PyAllAt<B>(delay: PyDelays, timeout: real, world: seq<PyAttempt<B>>, k: nat, i: nat)
    requires i < k <= |world| && PyAllGoOn(delay, timeout, world, k)
    ensures PyGoesOn(delay, timeout, i, world[i], PyStart(delay, world, i))
  {
    if i < k - 1 {
      PyAllAt(delay, timeout, world, k - 1, i);
    }
  }

  ghost predicate PyGives<B>(a: PyAttempt<B>, result: PyResult<B>) {
    match a.reply
    case PyOk(body) => result == PyReturned(body)
    case PyErrorReply(error) => result == PyApi(error)
    case PyTimeout => result == PyTimedOut
    case PyUrlError => result == PyNetwork
    case PyUnreadable(_) => result == PyNetwork
    case PyTooLarge => result == PySizeLimit
    case PyOtherError => result == PyRaised
  }

  lemma PyGivesIff<B>(a: PyAttempt<B>, result: PyResult<B>)
    ensures result == PyFinal(a) <==> PyGives(a, result)
  {
  }

  lemma PyWaitsIff<B>(delay: PyDelays, timeout: real, i: nat, a: PyAttempt<B>, start: real)
    ensures PyCanWait(timeout, a, start, PyDelayAfter(delay, i, a, start)) <==> PyWaits(delay, timeout, i, a, start)
    ensures PyMayWait(timeout, a, start, PyDelayAfter(delay, i, a, start)) <==> PyStillWaits(delay, timeout, i, a, start)
  {
  }

  lemma PyRanStep<B>(delay: PyDelays, timeout: real, world: seq<PyAttempt<B>>, legs: seq<Leg<real>>)
    requires 0 < |legs| <= |world| && PyRan(delay, timeout, world, legs)
    ensures var n := |legs| - 1;
            && PyRan(delay, timeout, world, legs[..n])
            && legs[n].start == PyClock(world, legs[..n])
            && PyRound(delay, timeout, n + 1, world[n], legs[n])
            && PyClock(world, legs) == PyNext(world[n], legs[n].start, PyAsked(delay, n, world[n], legs[n].start))
  {
  }

  lemma {:induction false} PyLegsAre<B>(delay: PyDelays, timeout: real, world: seq<PyAttempt<B>>, legs: seq<Leg<real>>)
    requires |legs| <= |world| && PyRan(delay, timeout, world, legs)
    ensures PyClock(world, legs) == PyStart(delay, world, |legs|)
    ensures PyAllGoOn(delay, timeout, world, |legs|)
    decreases |legs|
  {
    if legs != [] {
      var n := |legs| - 1;
      PyRanStep(delay, timeout, world, legs);
      PyLegsAre(delay, timeout, world, legs[..n]);
      PyRepeatsIff(world[n]);
      PyWaitsIff(delay, timeout, n, world[n], legs[n].start);
    }
  }

  /** What the attempt that does not lead on brings: whether it is sent, and what the caller gets. */
  ghost predicate PyEnds<B>(delay: PyDelays, timeout: real, more: bool, k: nat, a: PyAttempt<B>, start: real,
                            result: PyResult<B>, sends: nat)
  {
    if a.cancelledBefore then sends == k && result == PyCancelled
    else if start >= timeout then sends == k && result == PyTimedOut
    else
      && sends == k + 1
      && if more && PyRepeats(a) && PyWaits(delay, timeout, k, a, start)
         then result == if PyStillWaits(delay, timeout, k, a, start) then PyCancelled else PyTimedOut
         else PyGives(a, result)
  }

  /** The whole call, by its first attempt that does not lead on. */
  lemma PySettles<B>(delay: PyDelays, timeout: real, retrySafe: bool, world: seq<PyAttempt<B>>, result: PyResult<B>,
                     sends: nat, legs: seq<Leg<real>>, k: nat)
    requires PyOutcome(delay, timeout, retrySafe, world, result, sends, legs)
    requires k < |world| && (k > 0 ==> retrySafe) && PyAllGoOn(delay, timeout, world, k)
    requires !(k + 1 < |world| && retrySafe && PyGoesOn(delay, timeout, k, world[k], PyStart(delay, world, k)))
    ensures PyEnds(delay, timeout, k + 1 < |world| && retrySafe, k, world[k], PyStart(delay, world, k), result, sends)
  {
    PyLegsAre(delay, timeout, world, legs);
    PyLegsEnd(delay, timeout, retrySafe, world, result, sends, legs);
    if k < |legs| {
      PyAllAt(delay, timeout, world, |legs|, k);
    } else if |legs| < k {
      PyAllAt(delay, timeout, world, k, |legs|);
    }
  }

  lemma PyLegsEnd<B>(delay: PyDelays, timeout: real, retrySafe: bool, world: seq<PyAttempt<B>>, result: PyResult<B>,
                     sends: nat, legs: seq<Leg<real>>)
    requires PyOutcome(delay, timeout, retrySafe, world, result, sends, legs)
    ensures var n := |legs|;
            var start := PyStart(delay, world, n);
            && !(n + 1 < |world| && retrySafe && PyGoesOn(delay, timeout, n, world[n], start))
            && PyEnds(delay, timeout, n + 1 < |world| && retrySafe, n, world[n], start, result, sends)
  {
    PyLegsAre(delay, timeout, world, legs);
    PyAttemptEnds(delay, timeout, |legs| + 1 < |world| && retrySafe, |legs|, world[|legs|], PyClock(world, legs),
                  result, sends);
  }

  lemma PyAttemptEnds<B>(delay: PyDelays, timeout: real, more: bool, k: nat, a: PyAttempt<B>, start: real,
                         result: PyResult<B>, sends: nat)
    requires var wait := PyDelayAfter(delay, k, a, start);
             if k == sends then !PyStarts(timeout, a, start) && result == PyStopped(a)
             else
               && sends == k + 1 && PyStarts(timeout, a, start)
               && if more && PyTransient(a) && PyCanWait(timeout, a, start, wait)
                  then if PyMayWait(timeout, a, start, wait) then a.cancelledInWait && result == PyCancelled
                       else result == PyTimedOut
                  else result == PyFinal(a)
    ensures !(more && PyGoesOn(delay, timeout, k, a, start))
    ensures PyEnds(delay, timeout, more, k, a, start, result, sends)
  {
    PyRepeatsIff(a);
    PyWaitsIff(delay, timeout, k, a, start);
    PyGivesIff(a, result);
  }

  lemma PyCompletes<B>(delay: PyDelays, timeout: real, retrySafe: bool, world: seq<PyAttempt<B>>, result: PyResult<B>,
                       sends: nat, legs: seq<Leg<real>>, k: nat, body: B)
    requires PyOutcome(delay, timeout, retrySafe, world, result, sends, legs)
    requires k < |world| && (k > 0 ==> retrySafe) && PyAllGoOn(delay, timeout, world, k)
    requires !world[k].cancelledBefore && PyStart(delay, world, k) < timeout && world[k].reply == PyOk(body)
    ensures sends == k + 1 && result == PyReturned(body)
  {
    PySettles(delay, timeout, retrySafe, world, result, sends, legs, k);
  }
}

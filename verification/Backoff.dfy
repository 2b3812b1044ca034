/**
  Waits between attempts: the three jittered exponential backoffs, the settings they take,
  the parsed Retry-After they yield to, and when a wait is all the server asked for.
 */
module Backoff {
  import opened Common

  function Pow2(n: nat): (p: nat)
    ensures p >= 1
  {
    if n == 0 then 1 else 2 * Pow2(n - 1)
  }

  /** A random number as the clients draw it. */
  type Draw = r: real | 0.0 <= r <= 1.0 witness 0.0

  function MinInt(a: int, b: int): int {
    if a < b then a else b
  }

  function MinReal(a: real, b: real): real {
    if a < b then a else b
  }

  function MaxReal(a: real, b: real): real {
    if a < b then b else a
  }

  lemma {:induction false} Pow2Monotone(m: nat, n: nat)
    requires m <= n
    ensures Pow2(m) <= Pow2(n)
    decreases n - m
  {
    if m < n {
      Pow2Monotone(m, n - 1);
    }
  }

  // ----- Go -----

  const MAX_DURATION: int := 0x7FFF_FFFF_FFFF_FFFF
  const NANOS_PER_SECOND: int := 1_000_000_000
  const MAX_RETRY_BACKOFF: int := 5 * NANOS_PER_SECOND
  const MAX_ATTEMPTS := 5

  /** Go's int64 durations: every intermediate of the loop must fit. */
  predicate IsDuration(d: int) {
    -MAX_DURATION - 1 <= d <= MAX_DURATION
  }

  /** A retry configuration that normalizeRetryConfig lets through with retries on. */
  predicate GoConfig(initial: int, maximum: int, ratio: real) {
    0 < initial <= maximum <= MAX_RETRY_BACKOFF && 0.0 < ratio <= 1.0
  }

  datatype GoRetry = GoRetry(maxAttempts: int, initial: int, maximum: int, ratio: real)

  /** What a Go client holds: at most five attempts, and legal waits when there are retries. */
  type GoPolicy = r: GoRetry |
    1 <= r.maxAttempts <= MAX_ATTEMPTS && (r.maxAttempts > 1 ==> GoConfig(r.initial, r.maximum, r.ratio))
    witness GoRetry(1, 0, 0, 0.0)

  /** normalizeRetryConfig: zero means the default, and the result is checked. */
  function NormalizeGo(c: GoRetry): (r: Option<GoPolicy>)
    ensures r.Some? && c.maxAttempts <= 1 ==> r.value == GoRetry(1, 0, 0, 0.0)
    ensures r.Some? && c.maxAttempts > 1 ==>
              && r.value.maxAttempts == c.maxAttempts
              && r.value.initial == (if c.initial == 0 then 100_000_000 else c.initial)
              && r.value.maximum == (if c.maximum == 0 then 2 * NANOS_PER_SECOND else c.maximum)
              && r.value.ratio == (if c.ratio == 0.0 then 0.2 else c.ratio)
    ensures r.Some? <==>
            && 0 <= c.maxAttempts <= 5 && 0 <= c.initial && 0 <= c.maximum && 0.0 <= c.ratio <= 1.0
            && (c.maxAttempts > 1 ==>
                  (if c.initial == 0 then 100_000_000 else c.initial)
                  <= (if c.maximum == 0 then 2 * NANOS_PER_SECOND else c.maximum)
                  <= 5_000_000_000)
  {
    if c.maxAttempts < 0 || c.maxAttempts > MAX_ATTEMPTS || c.initial < 0 || c.maximum < 0 || c.ratio < 0.0 || c.ratio > 1.0
    then None
    else if c.maxAttempts <= 1 then Some(GoRetry(1, 0, 0, 0.0))
    else
      var initial := if c.initial == 0 then 100_000_000 else c.initial;
      var maximum := if c.maximum == 0 then 2 * NANOS_PER_SECOND else c.maximum;
      var ratio := if c.ratio == 0.0 then 0.2 else c.ratio;
      if initial > maximum || maximum > MAX_RETRY_BACKOFF then None
      else Some(GoRetry(c.maxAttempts, initial, maximum, ratio))
  }

  function GoBase(initial: int, maximum: int, attempt: nat): int
    requires attempt >= 1
  {
    MinInt(initial * Pow2(attempt - 1), maximum)
  }

  /** The doubling loop never overflows and computes the capped power of two. */
  method GoDoubling(initial: int, maximum: int, attempt: nat) returns (delay: int)
    requires 0 < initial <= maximum <= MAX_RETRY_BACKOFF && attempt >= 1
    ensures delay == GoBase(initial, maximum, attempt)
    ensures IsDuration(delay)
  {
    delay := initial;
    var index := 1;
    while index < attempt && delay < maximum
      invariant 1 <= index <= attempt && 0 < delay <= maximum
      invariant delay == MinInt(initial * Pow2(index - 1), maximum)
      decreases attempt - index
    {
      DoublingStep(initial, maximum, index);
      assert IsDuration(delay * 2);
      delay := delay * 2;
      if delay > maximum {
        delay := maximum;
      }
      index := index + 1;
    }
    if index < attempt {
      Pow2Monotone(index - 1, attempt - 1);
      Times(initial, Pow2(index - 1), Pow2(attempt - 1));
    }
  }

  lemma Times(a: int, m: int, n: int)
    requires 0 <= a && m <= n
    ensures a * m <= a * n
  {
  }

  lemma DoublingStep(initial: int, maximum: int, index: nat)
    requires index >= 1 && initial * Pow2(index - 1) < maximum
    ensures initial * Pow2(index) == 2 * (initial * Pow2(index - 1))
  {
    assert Pow2(index) == 2 * Pow2(index - 1);
  }

  /** A base spread by up to `ratio` either way; `draw` in [0, 1] picks the point. */
  function Jittered(base: real, ratio: real, draw: real): real {
    var spread := base * ratio;
    base - spread + draw * (2.0 * spread)
  }

  function Clamp(draw: real): real {
    MaxReal(0.0, MinReal(1.0, draw))
  }

  /** retryDelay without a Retry-After; time.Duration truncates. */
  function GoDelay(initial: int, maximum: int, ratio: real, attempt: nat, randomValue: real): int
    requires attempt >= 1
  {
    var delay := GoBase(initial, maximum, attempt);
    if delay <= 0 || ratio <= 0.0 then delay
    else
      var jittered := Jittered(delay as real, ratio, Clamp(randomValue));
      if jittered < 0.0 then 0 else MinReal(jittered, maximum as real).Floor
  }

  // ----- TypeScript and Python -----

  /** Legal waits of the TypeScript client, in milliseconds. */
  predicate TsConfig(initial: real, maximum: real, ratio: real) {
    0.0 <= initial <= maximum <= 5000.0 && 0.0 <= ratio <= 1.0
  }

  /** Legal waits of the Python client, in seconds. */
  predicate PyConfig(initial: real, maximum: real, ratio: real) {
    0.0 <= initial <= maximum <= 5.0 && 0.0 <= ratio <= 1.0
  }

  datatype Settings = Settings(maxAttempts: int, initial: real, maximum: real, ratio: real)

  type TsPolicy = s: Settings | 1 <= s.maxAttempts <= MAX_ATTEMPTS && TsConfig(s.initial, s.maximum, s.ratio)
    witness Settings(1, 200.0, 2000.0, 0.2)

  type PyPolicy = s: Settings | 1 <= s.maxAttempts <= MAX_ATTEMPTS && PyConfig(s.initial, s.maximum, s.ratio)
    witness Settings(1, 0.2, 2.0, 0.2)

  /** A setting as passed: left out, a finite number, or anything else. */
  datatype Setting = Unset | Finite(value: real) | NotFinite {
    function Or(default: real): Option<real> {
      match this
      case Unset => Some(default)
      case Finite(v) => Some(v)
      case NotFinite => None
    }
  }

  /** normalizeRetry: the defaults filled in, and the result checked. */
  function NormalizeTs(maxAttempts: Setting, initial: Setting, maximum: Setting, ratio: Setting): (r: Option<TsPolicy>)
    ensures r.Some? ==>
              && maxAttempts.Or(1.0) == Some(r.value.maxAttempts as real)
              && initial.Or(200.0) == Some(r.value.initial) && maximum.Or(2000.0) == Some(r.value.maximum)
              && ratio.Or(0.2) == Some(r.value.ratio)
    ensures r.Some? <==>
            && maxAttempts.Or(1.0) in {Some(1.0), Some(2.0), Some(3.0), Some(4.0), Some(5.0)}
            && initial.Or(200.0).Some? && maximum.Or(2000.0).Some? && ratio.Or(0.2).Some?
            && 0.0 <= initial.Or(200.0).value <= maximum.Or(2000.0).value <= 5000.0
            && 0.0 <= ratio.Or(0.2).value <= 1.0
  {
    var n :- maxAttempts.Or(1.0);
    if n.Floor as real != n || n < 1.0 || n > MAX_ATTEMPTS as real then None
    else
      var first :- initial.Or(200.0);
      if first < 0.0 then None
      else
        var most :- maximum.Or(2000.0);
        if most < first || most > 5000.0 then None
        else
          var jitter :- ratio.Or(0.2);
          if jitter < 0.0 || jitter > 1.0 then None else Some(Settings(n.Floor, first, most, jitter))
  }

  /** RetryConfig's own checks; the attempts are an integer by its type. */
  function NormalizePy(maxAttempts: int, initial: Setting, maximum: Setting, ratio: Setting): (r: Option<PyPolicy>)
    ensures r.Some? ==>
              && r.value.maxAttempts == maxAttempts
              && initial.Or(0.2) == Some(r.value.initial) && maximum.Or(2.0) == Some(r.value.maximum)
              && ratio.Or(0.2) == Some(r.value.ratio)
    ensures r.Some? <==>
            && 1 <= maxAttempts <= 5
            && initial.Or(0.2).Some? && maximum.Or(2.0).Some? && ratio.Or(0.2).Some?
            && 0.0 <= initial.Or(0.2).value <= maximum.Or(2.0).value <= 5.0
            && 0.0 <= ratio.Or(0.2).value <= 1.0
  {
    if !(1 <= maxAttempts <= MAX_ATTEMPTS) then None
    else
      var first :- initial.Or(0.2);
      var most :- maximum.Or(2.0);
      if first < 0.0 || most < 0.0 || first > most || most > 5.0 then None
      else
        var jitter :- ratio.Or(0.2);
        if !(0.0 <= jitter <= 1.0) then None else Some(Settings(maxAttempts, first, most, jitter))
  }

  function Base(initial: real, maximum: real, attempt: nat): real
    requires attempt >= 1
  {
    MinReal(initial * Pow2(attempt - 1) as real, maximum)
  }

  function Bounded(maximum: real, delay: real): (r: real)
    ensures 0.0 <= maximum ==> 0.0 <= r <= maximum
  {
    MinReal(maximum, MaxReal(0.0, delay))
  }

  lemma BoundedGrows(maximum: real, x: real, y: real)
    requires x <= y
    ensures Bounded(maximum, x) <= Bounded(maximum, y)
  {
  }

  /** Math.round: halves go up. */
  function Round(x: real): real {
    (x + 0.5).Floor as real
  }

  function TsDelay(initial: real, maximum: real, ratio: real, attempt: nat, draw: real): real
    requires attempt >= 1
  {
    Bounded(maximum, Round(Jittered(Base(initial, maximum, attempt), ratio, draw)))
  }

  const MAX_POLL_DELAY_MS := 30_000.0

  function PollDelay(initial: real, maximum: real, ratio: real, poll: nat, draw: real, retryAfter: Option<real>): real
    requires poll >= 1
  {
    MinReal(MAX_POLL_DELAY_MS, if retryAfter.Some? then retryAfter.value else TsDelay(initial, maximum, ratio, poll, draw))
  }

  /** random.uniform(-jitter, jitter) drawn at `draw`. */
  function PyDelay(initial: real, maximum: real, ratio: real, attempt: nat, draw: real): real
    requires attempt >= 1
  {
    var base := Base(initial, maximum, attempt);
    var jitter := base * ratio;
    Bounded(maximum, base + (-jitter + draw * (2.0 * jitter)))
  }

  // ----- Bounds and growth -----

  lemma BaseBounds(initial: real, maximum: real, attempt: nat)
    requires 0.0 <= initial <= maximum && attempt >= 1
    ensures 0.0 <= Base(initial, maximum, attempt) <= maximum
  {
    assert initial * Pow2(attempt - 1) as real >= 0.0;
  }

  lemma BaseGrows(initial: real, maximum: real, m: nat, n: nat)
    requires 0.0 <= initial && 1 <= m <= n
    ensures Base(initial, maximum, m) <= Base(initial, maximum, n)
  {
    Pow2Monotone(m - 1, n - 1);
    TimesReal(initial, Pow2(m - 1) as real, Pow2(n - 1) as real);
    MinGrows(initial * Pow2(m - 1) as real, initial * Pow2(n - 1) as real, maximum);
  }

  lemma MinGrows(x: real, y: real, maximum: real)
    requires x <= y
    ensures MinReal(x, maximum) <= MinReal(y, maximum)
  {
  }

  lemma TimesReal(a: real, x: real, y: real)
    requires 0.0 <= a && x <= y
    ensures a * x <= a * y
  {
    NonNegativeProduct(a, y - x);
    assert a * (y - x) == a * y - a * x;
  }

  lemma NonNegativeProduct(x: real, y: real)
    requires 0.0 <= x && 0.0 <= y
    ensures 0.0 <= x * y
  {
  }

  lemma JitterFactor(base: real, ratio: real, draw: real)
    ensures Jittered(base, ratio, draw) == base * (1.0 - ratio + 2.0 * draw * ratio)
  {
    var spread := base * ratio;
    assert draw * (2.0 * spread) == base * (2.0 * draw * ratio);
  }

  /** For a fixed draw the jittered wait is never negative and grows with the base. */
  lemma JitterGrows(a: real, b: real, ratio: real, draw: real)
    requires 0.0 <= a <= b && 0.0 <= ratio <= 1.0 && 0.0 <= draw <= 1.0
    ensures 0.0 <= Jittered(a, ratio, draw) <= Jittered(b, ratio, draw)
  {
    var factor := 1.0 - ratio + 2.0 * draw * ratio;
    JitterFactor(a, ratio, draw);
    JitterFactor(b, ratio, draw);
    NonNegativeProduct(draw, ratio);
    assert factor == 1.0 - ratio + 2.0 * (draw * ratio);
    TimesReal(factor, a, b);
    TimesReal(factor, 0.0, a);
  }

  lemma GoBaseGrows(initial: int, maximum: int, m: nat, n: nat)
    requires 0 < initial <= maximum && 1 <= m <= n
    ensures 0 < GoBase(initial, maximum, m) <= GoBase(initial, maximum, n) <= maximum
  {
    Pow2Monotone(m - 1, n - 1);
    Times(initial, Pow2(m - 1), Pow2(n - 1));
    Times(initial, 1, Pow2(m - 1));
  }

  /** Each client's wait stays in [0, max] for every draw. */
  lemma DelaysInBounds(initial: real, maximum: real, ratio: real, attempt: nat, draw: real)
    requires 0.0 <= initial <= maximum && 0.0 <= ratio <= 1.0 && attempt >= 1 && 0.0 <= draw <= 1.0
    ensures 0.0 <= TsDelay(initial, maximum, ratio, attempt, draw) <= maximum
    ensures 0.0 <= PyDelay(initial, maximum, ratio, attempt, draw) <= maximum
  {
  }

  /** A poll waits at most 30 seconds, and a wait the server did not ask for is never cut by that cap. */
  lemma PollDelayInBounds(initial: real, maximum: real, ratio: real, poll: nat, draw: real, retryAfter: Option<real>)
    requires TsConfig(initial, maximum, ratio) && poll >= 1 && 0.0 <= draw <= 1.0
    requires retryAfter.Some? ==> retryAfter.value >= 0.0
    ensures 0.0 <= PollDelay(initial, maximum, ratio, poll, draw, retryAfter) <= MAX_POLL_DELAY_MS
    ensures retryAfter.None? ==>
              PollDelay(initial, maximum, ratio, poll, draw, None) == TsDelay(initial, maximum, ratio, poll, draw)
  {
    DelaysInBounds(initial, maximum, ratio, poll, draw);
  }

  lemma GoDelayInBounds(initial: int, maximum: int, ratio: real, attempt: nat, randomValue: real)
    requires GoConfig(initial, maximum, ratio) && attempt >= 1
    ensures 0 <= GoDelay(initial, maximum, ratio, attempt, randomValue) <= maximum
  {
    GoBaseGrows(initial, maximum, attempt, attempt);
  }

  /** For a fixed draw no later attempt waits less than an earlier one, in any client. */
  lemma DelaysGrow(initial: real, maximum: real, ratio: real, m: nat, n: nat, draw: real)
    requires 0.0 <= initial <= maximum && 0.0 <= ratio <= 1.0 && 1 <= m <= n && 0.0 <= draw <= 1.0
    ensures TsDelay(initial, maximum, ratio, m, draw) <= TsDelay(initial, maximum, ratio, n, draw)
    ensures PyDelay(initial, maximum, ratio, m, draw) <= PyDelay(initial, maximum, ratio, n, draw)
  {
    var a, b := Base(initial, maximum, m), Base(initial, maximum, n);
    BaseBounds(initial, maximum, m);
    BaseGrows(initial, maximum, m, n);
    JitterGrows(a, b, ratio, draw);
    UniformIsJitter(a, ratio, draw);
    UniformIsJitter(b, ratio, draw);
    RoundGrows(Jittered(a, ratio, draw), Jittered(b, ratio, draw));
    BoundedGrows(maximum, Round(Jittered(a, ratio, draw)), Round(Jittered(b, ratio, draw)));
    BoundedGrows(maximum, Jittered(a, ratio, draw), Jittered(b, ratio, draw));
  }

  lemma UniformIsJitter(base: real, ratio: real, draw: real)
    ensures base + (-(base * ratio) + draw * (2.0 * (base * ratio))) == Jittered(base, ratio, draw)
  {
  }

  lemma RoundGrows(x: real, y: real)
    requires x <= y
    ensures Round(x) <= Round(y)
  {
    var a, b := (x + 0.5).Floor, (y + 0.5).Floor;
    assert a as real <= x + 0.5 && y + 0.5 < (b + 1) as real;
    assert a < b + 1;
  }

  lemma GoDelayGrows(initial: int, maximum: int, ratio: real, m: nat, n: nat, randomValue: real)
    requires GoConfig(initial, maximum, ratio) && 1 <= m <= n
    ensures GoDelay(initial, maximum, ratio, m, randomValue) <= GoDelay(initial, maximum, ratio, n, randomValue)
  {
    GoBaseGrows(initial, maximum, m, n);
    JitterGrows(GoBase(initial, maximum, m) as real, GoBase(initial, maximum, n) as real, ratio, Clamp(randomValue));
  }

  // ----- The waits in closed form -----

  /** initial doubled once for every attempt after the first, but no more than maximum. */
  lemma BaseForm(initial: real, maximum: real, attempt: nat)
    requires attempt >= 1
    ensures Base(initial, maximum, 1) == if initial < maximum then initial else maximum
    ensures 0.0 <= initial <= maximum ==>
              Base(initial, maximum, attempt + 1) ==
              if 2.0 * Base(initial, maximum, attempt) < maximum then 2.0 * Base(initial, maximum, attempt) else maximum
  {
    assert Pow2(attempt) == 2 * Pow2(attempt - 1);
    TwiceProduct(initial, Pow2(attempt - 1) as real);
  }

  lemma TwiceProduct(a: real, x: real)
    ensures a * (2.0 * x) == 2.0 * (a * x)
  {
  }

  /** A TypeScript wait: the spread base rounded to whole milliseconds, then capped. */
  lemma TsDelayForm(initial: real, maximum: real, ratio: real, attempt: nat, draw: real)
    requires 0.0 <= initial <= maximum && 0.0 <= ratio <= 1.0 && attempt >= 1 && 0.0 <= draw <= 1.0
    ensures var spread := Base(initial, maximum, attempt) * (1.0 - ratio + 2.0 * draw * ratio);
            var whole := (spread + 0.5).Floor as real;
            && spread - 0.5 < whole <= spread + 0.5
            && TsDelay(initial, maximum, ratio, attempt, draw) == if whole < maximum then whole else maximum
  {
    BaseBounds(initial, maximum, attempt);
    JitterGrows(Base(initial, maximum, attempt), Base(initial, maximum, attempt), ratio, draw);
    JitterFactor(Base(initial, maximum, attempt), ratio, draw);
    RoundGrows(0.0, Jittered(Base(initial, maximum, attempt), ratio, draw));
  }

  /** A Python wait: the spread base, capped. */
  lemma PyDelayForm(initial: real, maximum: real, ratio: real, attempt: nat, draw: real)
    requires 0.0 <= initial <= maximum && 0.0 <= ratio <= 1.0 && attempt >= 1 && 0.0 <= draw <= 1.0
    ensures var spread := Base(initial, maximum, attempt) * (1.0 - ratio + 2.0 * draw * ratio);
            PyDelay(initial, maximum, ratio, attempt, draw) == if spread < maximum then spread else maximum
  {
    var base := Base(initial, maximum, attempt);
    BaseBounds(initial, maximum, attempt);
    JitterGrows(base, base, ratio, draw);
    JitterFactor(base, ratio, draw);
    PyDelayJitters(initial, maximum, ratio, attempt, draw);
  }

  lemma PyDelayJitters(initial: real, maximum: real, ratio: real, attempt: nat, draw: real)
    requires attempt >= 1
    ensures PyDelay(initial, maximum, ratio, attempt, draw)
         == Bounded(maximum, Jittered(Base(initial, maximum, attempt), ratio, draw))
  {
    UniformIsJitter(Base(initial, maximum, attempt), ratio, draw);
  }

  /** A Go wait: the spread base, capped and cut to whole nanoseconds. */
  lemma GoDelayForm(initial: int, maximum: int, ratio: real, attempt: nat, draw: real)
    requires GoConfig(initial, maximum, ratio) && attempt >= 1 && 0.0 <= draw <= 1.0
    ensures var spread := GoBase(initial, maximum, attempt) as real * (1.0 - ratio + 2.0 * draw * ratio);
            GoDelay(initial, maximum, ratio, attempt, draw) == if spread < maximum as real then spread.Floor else maximum
  {
    GoBaseGrows(initial, maximum, attempt, attempt);
    JitterFactor(GoBase(initial, maximum, attempt) as real, ratio, draw);
    JitterGrows(GoBase(initial, maximum, attempt) as real, GoBase(initial, maximum, attempt) as real, ratio, draw);
    WholeFloor(maximum);
  }

  lemma WholeFloor(n: int)
    ensures (n as real).Floor == n
  {
  }

  lemma GoBaseForm(initial: int, maximum: int, attempt: nat)
    requires 0 < initial <= maximum && attempt >= 1
    ensures GoBase(initial, maximum, 1) == initial
    ensures GoBase(initial, maximum, attempt + 1) ==
            if 2 * GoBase(initial, maximum, attempt) < maximum then 2 * GoBase(initial, maximum, attempt) else maximum
  {
    assert Pow2(attempt) == 2 * Pow2(attempt - 1);
    TwiceInt(initial, Pow2(attempt - 1));
  }

  lemma TwiceInt(a: int, x: int)
    ensures a * (2 * x) == 2 * (a * x)
  {
  }

  // ----- Retry-After (section 10.2.3 of RFC 9110) -----

  /** The header: none, delay-seconds of any length, or the moment an HTTP date names. */
  datatype RetryAfter<T> = Absent | Seconds(n: nat) | Date(at: T)

  const UINT64: int := 0x1_0000_0000_0000_0000

  /** retryAfterDelay: saturates, and ignores a number that strconv.ParseUint cannot hold. */
  function GoRetryAfter(header: RetryAfter<int>, now: int): (d: Option<int>)
    ensures d.Some? ==> 0 <= d.value && IsDuration(d.value)
  {
    match header
    case Absent => None
    case Seconds(n) =>
      if n >= UINT64 then None
      else if n > MAX_DURATION / NANOS_PER_SECOND then Some(MAX_DURATION)
      else Some(n * NANOS_PER_SECOND)
    case Date(at) => if at <= now then Some(0) else Some(MinInt(at - now, MAX_DURATION))
  }

  /** retryDelay. */
  function GoWait(r: GoRetry, attempt: nat, header: RetryAfter<int>, now: int, draw: real): int
    requires attempt >= 1
  {
    GoRetryAfter(header, now).GetOr(GoDelay(r.initial, r.maximum, r.ratio, attempt, draw))
  }

  /** canWaitForRetry; time.Until saturates. */
  predicate GoCanWait(delay: int, remaining: int) {
    delay < MinInt(remaining, MAX_DURATION)
  }

  /**
    A wait for delay-seconds that is entered is all the server asked for exactly when the
    number fits 64 bits. The saturated value fits before no deadline.
   */
  lemma GoHonoursIff(r: GoRetry, attempt: nat, n: nat, now: int, draw: real, remaining: int)
    requires GoConfig(r.initial, r.maximum, r.ratio) && attempt >= 1
    ensures var wait := GoWait(r, attempt, Seconds(n), now, draw);
            GoCanWait(wait, remaining) ==> (wait >= n * NANOS_PER_SECOND <==> n < UINT64)
  {
    GoDelayInBounds(r.initial, r.maximum, r.ratio, attempt, draw);
  }

  /** At 2^64 seconds Go falls back to its own backoff and, 30 seconds from its deadline, waits at most 5. */
  lemma GoIgnoresHugeRetryAfter(r: GoRetry, attempt: nat, now: int, draw: real)
    requires GoConfig(r.initial, r.maximum, r.ratio) && attempt >= 1
    ensures GoWait(r, attempt, Seconds(UINT64), now, draw) <= MAX_RETRY_BACKOFF
    ensures GoCanWait(GoWait(r, attempt, Seconds(UINT64), now, draw), 30 * NANOS_PER_SECOND)
  {
    GoDelayInBounds(r.initial, r.maximum, r.ratio, attempt, draw);
  }

  /** 2^240. */
  const TWO_TO_240: nat := 0x1_0000_0000_0000_0000_0000_0000_0000_0000_0000_0000_0000_0000_0000_0000_0000

  /** Seconds from which float() gives inf: halfway past the largest double, 2^1024 - 2^970. */
  const FLOAT_OVERFLOW: nat :=
    0x3F_FFFF_FFFF_FFFF * 0x400
    * 0x1_0000_0000_0000_0000_0000_0000_0000_0000_0000_0000_0000_0000_0000_0000_0000
    * 0x1_0000_0000_0000_0000_0000_0000_0000_0000_0000_0000_0000_0000_0000_0000_0000
    * 0x1_0000_0000_0000_0000_0000_0000_0000_0000_0000_0000_0000_0000_0000_0000_0000
    * 0x1_0000_0000_0000_0000_0000_0000_0000_0000_0000_0000_0000_0000_0000_0000_0000

  lemma {:induction false} Pow2Adds(m: nat, n: nat)
    ensures Pow2(m + n) == Pow2(m) * Pow2(n)
  {
    if m > 0 {
      Pow2Adds(m - 1, n);
      Associate(2, Pow2(m - 1), Pow2(n));
    }
  }

  lemma Associate(a: int, b: int, c: int)
    ensures a * b * c == a * (b * c)
  {
  }

  lemma PowerSum(m: nat, n: nat, a: nat, b: nat)
    requires Pow2(m) == a && Pow2(n) == b
    ensures Pow2(m + n) == a * b
  {
    Pow2Adds(m, n);
  }

  lemma SmallPowers()
    ensures Pow2(10) == 0x400 && Pow2(20) == 0x10_0000 && Pow2(4) == 0x10
  {
    assert Pow2(2) == 2 * Pow2(1);
    PowerSum(2, 2, 4, 4);
    PowerSum(4, 4, 0x10, 0x10);
    PowerSum(8, 2, 0x100, 4);
    PowerSum(10, 10, 0x400, 0x400);
  }

  lemma MiddlePowers()
    ensures Pow2(54) == 0x40_0000_0000_0000 && Pow2(60) == 0x1000_0000_0000_0000
  {
    SmallPowers();
    PowerSum(20, 10, 0x10_0000, 0x400);
    PowerSum(20, 4, 0x10_0000, 0x10);
    PowerSum(30, 24, 0x4000_0000, 0x100_0000);
    PowerSum(30, 30, 0x4000_0000, 0x4000_0000);
  }

  lemma Pow2Of240()
    ensures Pow2(240) == TWO_TO_240
  {
    MiddlePowers();
    PowerSum(60, 60, 0x1000_0000_0000_0000, 0x1000_0000_0000_0000);
    PowerSum(120, 120, Pow2(120), Pow2(120));
  }

  lemma Pow2Of960()
    ensures Pow2(960) == TWO_TO_240 * TWO_TO_240 * (TWO_TO_240 * TWO_TO_240)
  {
    Pow2Of240();
    PowerSum(240, 240, TWO_TO_240, TWO_TO_240);
    PowerSum(480, 480, TWO_TO_240 * TWO_TO_240, TWO_TO_240 * TWO_TO_240);
  }

  lemma OverflowIsMidpoint()
    ensures FLOAT_OVERFLOW == Pow2(1024) - Pow2(970)
  {
    SmallPowers();
    MiddlePowers();
    Pow2Of960();
    PowerSum(10, 960, 0x400, Pow2(960));
    PowerSum(54, 970, 0x40_0000_0000_0000, Pow2(970));
  }

  /** _parse_retry_after on the two standard forms. */
  function PyRetryAfter(header: RetryAfter<real>, now: real): Option<real> {
    match header
    case Absent => None
    case Seconds(n) => if n >= FLOAT_OVERFLOW then None else Some(n as real)
    case Date(at) => Some(MaxReal(0.0, at - now))
  }

  function PyWait(r: Settings, attempt: nat, header: RetryAfter<real>, now: real, draw: real): real
    requires attempt >= 1
  {
    PyRetryAfter(header, now).GetOr(PyDelay(r.initial, r.maximum, r.ratio, attempt, draw))
  }

  /** A wait is never negative, and is all that a header within range asks for. */
  lemma PyWaitLegal(r: Settings, attempt: nat, header: RetryAfter<real>, now: real, draw: real)
    requires PyConfig(r.initial, r.maximum, r.ratio) && attempt >= 1 && 0.0 <= draw <= 1.0
    ensures PyWait(r, attempt, header, now, draw) >= 0.0
    ensures header.Seconds? && header.n < FLOAT_OVERFLOW ==> PyWait(r, attempt, header, now, draw) == header.n as real
    ensures header.Date? ==> now + PyWait(r, attempt, header, now, draw) >= header.at
  {
    DelaysInBounds(r.initial, r.maximum, r.ratio, attempt, draw);
  }

  /** Python drops the header exactly when the number overflows a double, and then waits less. */
  lemma PyHonoursIff(r: Settings, attempt: nat, n: nat, now: real, draw: real)
    requires PyConfig(r.initial, r.maximum, r.ratio) && attempt >= 1 && 0.0 <= draw <= 1.0
    ensures PyWait(r, attempt, Seconds(n), now, draw) >= n as real <==> n < FLOAT_OVERFLOW
  {
    DelaysInBounds(r.initial, r.maximum, r.ratio, attempt, draw);
  }

  /** retryAfterMs. */
  function TsRetryAfter(header: RetryAfter<real>, now: real): Option<real> {
    match header
    case Absent => None
    case Seconds(n) => Some(n as real * 1000.0)
    case Date(at) => Some(MaxReal(0.0, at - now))
  }

  function TsWait(r: Settings, attempt: nat, header: RetryAfter<real>, now: real, draw: real): real
    requires attempt >= 1
  {
    TsRetryAfter(header, now).GetOr(TsDelay(r.initial, r.maximum, r.ratio, attempt, draw))
  }

  /**
    A wait after a Retry-After is the one asked for, in the client's own unit: delay-seconds in
    full, or the time left until the date; without the header it is the backoff.
   */
  lemma WaitsAsAsked(ts: TsPolicy, py: PyPolicy, attempt: nat, n: nat, at: real, now: real, draw: Draw)
    requires attempt >= 1
    ensures TsWait(ts, attempt, Seconds(n), now, draw) == 1000.0 * n as real
    ensures TsWait(ts, attempt, Date(at), now, draw) == (if at <= now then 0.0 else at - now)
    ensures TsWait(ts, attempt, Absent, now, draw) == TsDelay(ts.initial, ts.maximum, ts.ratio, attempt, draw)
    ensures n < FLOAT_OVERFLOW ==> PyWait(py, attempt, Seconds(n), now, draw) == n as real
    ensures n >= FLOAT_OVERFLOW ==>
              PyWait(py, attempt, Seconds(n), now, draw) == PyDelay(py.initial, py.maximum, py.ratio, attempt, draw)
    ensures PyWait(py, attempt, Date(at), now, draw) == (if at <= now then 0.0 else at - now)
    ensures PyWait(py, attempt, Absent, now, draw) == PyDelay(py.initial, py.maximum, py.ratio, attempt, draw)
  {
  }

  /** In Go, with the largest duration for a wait that fits no duration. */
  lemma GoWaitsAsAsked(r: GoPolicy, attempt: nat, n: nat, at: int, now: int, draw: real)
    requires attempt >= 1
    ensures n < UINT64 ==>
              GoWait(r, attempt, Seconds(n), now, draw)
              == if n * 1_000_000_000 <= MAX_DURATION then n * 1_000_000_000 else MAX_DURATION
    ensures n >= UINT64 ==>
              GoWait(r, attempt, Seconds(n), now, draw) == GoDelay(r.initial, r.maximum, r.ratio, attempt, draw)
    ensures GoWait(r, attempt, Date(at), now, draw)
         == if at <= now then 0 else if at - now <= MAX_DURATION then at - now else MAX_DURATION
    ensures GoWait(r, attempt, Absent, now, draw) == GoDelay(r.initial, r.maximum, r.ratio, attempt, draw)
  {
  }

  /** A poll after a Retry-After waits as asked, but no longer than 30 seconds. */
  lemma PollWaitsAsAsked(ts: TsPolicy, poll: nat, draw: Draw, asked: real)
    requires poll >= 1
    ensures PollDelay(ts.initial, ts.maximum, ts.ratio, poll, draw, Some(asked))
         == if asked < 30_000.0 then asked else 30_000.0
    ensures PollDelay(ts.initial, ts.maximum, ts.ratio, poll, draw, None)
         == TsDelay(ts.initial, ts.maximum, ts.ratio, poll, draw)
  {
    PollDelayInBounds(ts.initial, ts.maximum, ts.ratio, poll, draw, None);
  }

  const MAX_TIMER_DELAY_MS := 2_147_483_647.0

  /** A timer armed at `armed` for `delay`, `order` counting timers as they are created. */
  datatype Timer = Timer(armed: real, delay: real, order: nat) {
    function Due(): real {
      armed + delay
    }

    /** Timers fire by due time, and in creation order when due together. */
    predicate FiresBefore(other: Timer) {
      Due() < other.Due() || (Due() == other.Due() && order < other.order)
    }
  }

  /**
    The TypeScript retry timer is capped at 2^31 - 1 ms. The deadline timer was created
    first with no longer a delay, so a capped retry timer never fires before it.
   */
  lemma TsNeverEarly(start: real, timeout: real, deadlineOrder: nat, now: real, wait: real, order: nat)
    requires 0.0 < timeout <= MAX_TIMER_DELAY_MS && start <= now && deadlineOrder < order && wait > 0.0
    requires !Timer(start, timeout, deadlineOrder).FiresBefore(Timer(now, MinReal(wait, MAX_TIMER_DELAY_MS), order))
    ensures MinReal(wait, MAX_TIMER_DELAY_MS) == wait && now + wait < start + timeout
  {
  }
}

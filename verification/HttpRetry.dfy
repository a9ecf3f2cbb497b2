/** The request loop of the client library: which replies end it, what it makes of them, and
    how long it waits in between. */
module HttpRetry {
  import opened Results

  const DEFAULT_MIN_WAIT_MS := 100
  const MAX_BACKOFF_MS := 120 * 1000
  const MAX_HEADER_WAIT_MS := 1800 * 1000

  /** A Retry-After header as the parser sees it: missing, a number of seconds, a date so many
      milliseconds away, or neither. */
  datatype Header = Absent | Seconds(n: int) | Date(distance: int) | Unreadable

  /** The error code in the body of a response: one of those that say the store or its model
      is missing, or any other. */
  datatype ErrorCode = LatestModelNotFound | StoreIdNotFound | ModelNotFound | OtherCode(text: string)

  /** What a request failed with: anything at all, or an axios error with the status of the
      response (0 if there was none), the error code in its body and its header. */
  datatype Failure = NotAxios | Axios(status: nat, code: ErrorCode, header: Header)

  /** How one request ends. `Nothing` is neither a response nor an error that counts as one:
      the instance resolved to, or was rejected with, a falsy value. */
  datatype Reply<+R> = Answered(response: R) | Failed(failure: Failure) | Nothing

  datatype ApiKind = Validation | Authentication | NotFound | RateLimit | Internal | OtherStatus

  /** The error classes: a plain FgaError, an FgaApiError or one of its subclasses, an
      FgaValidationError raised before sending, and anything that is none of them. */
  datatype SdkError = Plain | Api(kind: ApiKind, status: nat, code: ErrorCode) | Invalid | Foreign

  datatype Outcome<+R> = Returned(response: R, retries: nat) | Raised(error: SdkError) | Undefined

  // ---------- one failure ----------

  /** The statuses the library itself retries. */
  predicate RetriedStatus(status: nat) { status == 429 || (status >= 500 && status != 501) }

  function KindOf(status: nat): ApiKind {
    if status == 400 || status == 422 then Validation
    else if status == 401 || status == 403 then Authentication
    else if status == 404 then NotFound
    else if status == 429 then RateLimit
    else if RetriedStatus(status) then Internal
    else OtherStatus
  }

  /** `checkIfRetryableError`: None to try again, or the error to raise. */
  function Verdict(f: Failure, iteration: nat, maxRetry: int): Option<SdkError> {
    match f
    case NotAxios => Some(Plain)
    case Axios(status, code, _) =>
      if status == 0 then (if iteration > maxRetry then Some(Plain) else None)
      else if RetriedStatus(status) && iteration <= maxRetry then None
      else Some(Api(KindOf(status), status, code))
  }

  /** The error raised when no retry is left: one without a status for what is no HTTP error and
      for want of a response, else the class of the status, with the status and the code. */
  lemma FinalVerdict(f: Failure, iteration: nat, maxRetry: int)
    requires iteration > maxRetry
    ensures
      var v := Verdict(f, iteration, maxRetry);
      match f
      case NotAxios => v == Some(Plain)
      case Axios(status, code, _) =>
        if status == 0 then v == Some(Plain)
        else
          && v.Some? && v.value.Api? && v.value.status == status && v.value.code == code
          && (v.value.kind == Validation <==> status == 400 || status == 422)
          && (v.value.kind == Authentication <==> status == 401 || status == 403)
          && (v.value.kind == NotFound <==> status == 404)
          && (v.value.kind == RateLimit <==> status == 429)
          && (v.value.kind == Internal <==> status >= 500 && status != 501)
  {
  }

  /** While a retry is left, what may pass is tried again and everything else raised as it would
      be without. */
  lemma EarlierVerdict(f: Failure, iteration: nat, maxRetry: int)
    requires iteration <= maxRetry
    ensures Verdict(f, iteration, maxRetry) ==
              if f.Axios? && (f.status == 0 || f.status == 429 || (f.status >= 500 && f.status != 501)) then None
              else Verdict(f, 1, 0)
  {
  }

  // ---------- how long to wait ----------

  function Min(a: int, b: int): int { if a <= b then a else b }

  function Ceil(x: real): int { -(-x).Floor }

  /** 2 ** attempt * minWait */
  function Doubled(attempt: nat, minWait: real): (ms: real)
    ensures minWait >= 0.0 ==> ms >= 0.0
  {
    if attempt == 0 then minWait else 2.0 * Doubled(attempt - 1, minWait)
  }

  /** The least whole number that is not below. */
  lemma CeilIs(x: real)
    ensures (Ceil(x) - 1) as real < x <= Ceil(x) as real
  {
  }

  lemma {:induction false} DoubledGrows(attempt: nat, more: nat, minWait: real)
    requires minWait >= 0.0
    ensures Doubled(attempt, minWait) <= Doubled(attempt + more, minWait)
  {
    if more > 0 { DoubledGrows(attempt, more - 1, minWait); }
  }

  lemma Product(x: real, y: real)
    requires 0.0 <= x && 0.0 <= y
    ensures 0.0 <= x * y
  {
  }

  lemma Fraction(random: real, spread: real)
    ensures 0.0 <= random < 1.0 && 0.0 <= spread ==> 0.0 <= random * spread <= spread
  {
    if 0.0 <= random < 1.0 && 0.0 <= spread {
      Product(random, spread);
      Product(1.0 - random, spread);
      assert (1.0 - random) * spread == spread - random * spread;
    }
  }

  lemma FloorBetween(low: int, high: int, part: real)
    ensures 0.0 <= part <= (high - low) as real ==> low <= (part + low as real).Floor <= high
  {
  }

  lemma DrawnBetween(low: int, high: int, random: real)
    ensures 0.0 <= random < 1.0 && low <= high ==> low <= (random * (high - low) as real + low as real).Floor <= high
  {
    var spread := (high - low) as real;
    var part := random * spread;
    if 0.0 <= random < 1.0 && low <= high {
      assert 0.0 <= spread;
      assert 0.0 <= part <= spread by { Fraction(random, spread); }
      FloorBetween(low, high, part);
    }
  }

  /** Math.floor(random * (high - low) + low) */
  function Drawn(low: int, high: int, random: real): (ms: int)
    ensures 0.0 <= random < 1.0 && low <= high ==> low <= ms <= high
  {
    DrawnBetween(low, high, random);
    (random * (high - low) as real + low as real).Floor
  }

  /** `calculateExponentialBackoffWithJitter` for a random number in [0, 1). */
  function Backoff(attempt: nat, minWait: real, random: real): int {
    Min(Drawn(Ceil(Doubled(attempt, minWait)), Ceil(Doubled(attempt + 1, minWait)), random), MAX_BACKOFF_MS)
  }

  /** The random number spreads the wait over its whole range. */
  lemma DrawnReaches(low: int, high: int, ms: int)
    requires low <= ms < high
    ensures exists random: real :: 0.0 <= random < 1.0 && Drawn(low, high, random) == ms
  {
    var spread := (high - low) as real;
    var random := (ms - low) as real / spread;
    assert random * spread == (ms - low) as real;
    Quotient((ms - low) as real, spread, random);
    assert Drawn(low, high, random) == ms;
  }

  lemma Quotient(part: real, whole: real, q: real)
    requires 0.0 <= part < whole && q * whole == part
    ensures 0.0 <= q < 1.0
  {
    Scaled(q, whole);
  }

  lemma Scaled(q: real, whole: real)
    requires whole > 0.0
    ensures q < 0.0 ==> q * whole < 0.0
    ensures q >= 1.0 ==> q * whole >= whole
  {
    if q >= 1.0 {
      Product(q - 1.0, whole);
      assert q * whole == (q - 1.0) * whole + whole;
    }
  }

  predicate ValidDelay(ms: int) { DEFAULT_MIN_WAIT_MS <= ms <= MAX_HEADER_WAIT_MS }

  /** `parseRetryAfterHeader` */
  function HeaderDelay(h: Header): Option<int> {
    match h
    case Seconds(n) => if ValidDelay(n * 1000) then Some(n * 1000) else None
    case Date(distance) => if ValidDelay(distance) then Some(distance) else None
    case _ => None
  }

  /** A header counts when it asks for 1 to 1800 seconds, or names a date that is 100 milliseconds
      to 1800 seconds away. */
  lemma HeaderCounts(h: Header, ms: int)
    ensures HeaderDelay(h) == Some(ms) <==>
              || (h.Seconds? && ms == 1000 * h.n && 1 <= h.n <= 1800)
              || (h.Date? && ms == h.distance && 100 <= ms <= 1800000)
  {
  }

  function Delay(f: Failure, attempt: nat, minWait: real, random: real): int {
    var header := if f.Axios? && RetriedStatus(f.status) then HeaderDelay(f.header) else None;
    Min(if header.Some? then header.value else Backoff(attempt, minWait, random), MAX_HEADER_WAIT_MS)
  }

  lemma CeilMonotone(x: real, y: real)
    requires x <= y
    ensures Ceil(x) <= Ceil(y)
  {
  }

  lemma BackoffBounds(attempt: nat, minWait: real, random: real)
    requires 0.0 <= minWait && 0.0 <= random < 1.0
    ensures Min(Ceil(Doubled(attempt, minWait)), MAX_BACKOFF_MS) <= Backoff(attempt, minWait, random)
    ensures Backoff(attempt, minWait, random) <= Min(Ceil(Doubled(attempt + 1, minWait)), MAX_BACKOFF_MS)
  {
    CeilMonotone(Doubled(attempt, minWait), Doubled(attempt + 1, minWait));
  }

  /** Every wait keeps within the bounds: those of the header when it holds an acceptable
      delay, else those of the exponential backoff. */
  lemma DelayBounds(f: Failure, attempt: nat, minWait: real, random: real)
    requires 0.0 <= minWait && 0.0 <= random < 1.0
    ensures 0 <= Delay(f, attempt, minWait, random) <= MAX_HEADER_WAIT_MS
    ensures
      var header := if f.Axios? && RetriedStatus(f.status) then HeaderDelay(f.header) else None;
      var ms := Delay(f, attempt, minWait, random);
      var low, high := Ceil(Doubled(attempt, minWait)), Ceil(Doubled(attempt + 1, minWait));
      if header.Some? then ms == header.value && ValidDelay(ms)
      else Min(low, MAX_BACKOFF_MS) <= ms <= Min(high, MAX_BACKOFF_MS)
  {
    BackoffBounds(attempt, minWait, random);
    CeilMonotone(0.0, Doubled(attempt, minWait));
  }

  /** With the library's minimum of 100 milliseconds: up to 400 after the first failure, up to 800
      after the second, up to 1600 after the third, and 120 seconds from the eleventh on. */
  lemma FirstBackoffs(attempt: nat, random: real)
    requires 0.0 <= random < 1.0
    ensures attempt == 1 ==> 200 <= Backoff(attempt, 100.0, random) <= 400
    ensures attempt == 2 ==> 400 <= Backoff(attempt, 100.0, random) <= 800
    ensures attempt == 3 ==> 800 <= Backoff(attempt, 100.0, random) <= 1600
    ensures attempt >= 11 ==> Backoff(attempt, 100.0, random) == 120000
  {
    BackoffBounds(attempt, 100.0, random);
    FirstDoublings();
    if attempt >= 11 {
      DoubledGrows(11, attempt - 11, 100.0);
      CeilMonotone(204800.0, Doubled(attempt, 100.0));
    }
  }

  lemma FirstDoublings()
    ensures Doubled(1, 100.0) == 200.0 && Doubled(2, 100.0) == 400.0 && Doubled(3, 100.0) == 800.0
    ensures Doubled(4, 100.0) == 1600.0 && Doubled(11, 100.0) == 204800.0
  {
    assert Doubled(2, 100.0) == 2.0 * Doubled(1, 100.0);
    assert Doubled(4, 100.0) == 2.0 * Doubled(3, 100.0) && Doubled(3, 100.0) == 2.0 * Doubled(2, 100.0);
    assert Doubled(6, 100.0) == 2.0 * Doubled(5, 100.0) && Doubled(5, 100.0) == 2.0 * Doubled(4, 100.0);
    assert Doubled(8, 100.0) == 2.0 * Doubled(7, 100.0) && Doubled(7, 100.0) == 2.0 * Doubled(6, 100.0);
    assert Doubled(10, 100.0) == 2.0 * Doubled(9, 100.0) && Doubled(9, 100.0) == 2.0 * Doubled(8, 100.0);
  }

  // ---------- the loop ----------

  /** The loop goes no further after this reply to its k-th request. */
  predicate Stops<R>(reply: Reply<R>, k: nat, maxRetry: int) {
    match reply
    case Answered(_) => true
    case Failed(f) => Verdict(f, k, maxRetry).Some?
    case Nothing => k >= maxRetry + 1
  }

  function Conclusion<R>(reply: Reply<R>, k: nat, maxRetry: int): Outcome<R>
    requires k > 0 && Stops(reply, k, maxRetry)
  {
    match reply
    case Answered(response) => Returned(response, k - 1)
    case Failed(f) => Raised(Verdict(f, k, maxRetry).value)
    case Nothing => Undefined
  }

  /** The n-th request is the first whose reply stops the loop. */
  ghost predicate StopsAt<R>(upstream: nat -> Reply<R>, maxRetry: int, n: nat) {
    n > 0 && Stops(upstream(n), n, maxRetry) && forall k: nat | 0 < k < n :: !Stops(upstream(k), k, maxRetry)
  }

  /** The waits before the n-th request: one after each failure. */
  function Waits<R>(upstream: nat -> Reply<R>, random: nat -> real, minWait: real, n: nat): seq<int> {
    if n <= 1 then []
    else
      Waits(upstream, random, minWait, n - 1)
      + (if upstream(n - 1).Failed? then [Delay(upstream(n - 1).failure, n - 1, minWait, random(n - 1))] else [])
  }

  /** `attemptHttpRequest`, given how the k-th request ends and the k-th random number. */
  method AttemptHttpRequest<R>(upstream: nat -> Reply<R>, random: nat -> real, maxRetry: int, minWait: real)
    returns (outcome: Outcome<R>, requests: nat, waits: seq<int>)
    ensures StopsAt(upstream, maxRetry, requests)
    ensures outcome == Conclusion(upstream(requests), requests, maxRetry)
    ensures waits == Waits(upstream, random, minWait, requests)
  {
    var iterationCount: nat := 0;
    waits := [];
    while iterationCount == 0 || iterationCount < maxRetry + 1
      invariant forall k: nat | 0 < k < iterationCount :: !Stops(upstream(k), k, maxRetry)
      invariant iterationCount > 0 ==>
                  upstream(iterationCount).Nothing? || !Stops(upstream(iterationCount), iterationCount, maxRetry)
      invariant waits == Waits(upstream, random, minWait, iterationCount + 1)
      decreases (if maxRetry < 0 then 1 else maxRetry + 1) - iterationCount
    {
      iterationCount := iterationCount + 1;
      var reply := upstream(iterationCount);
      if reply.Answered? {
        return Returned(reply.response, iterationCount - 1), iterationCount, waits;
      }
      if reply.Failed? {
        var error := Verdict(reply.failure, iterationCount, maxRetry);
        if error.Some? {
          return Raised(error.value), iterationCount, waits;
        }
        waits := waits + [Delay(reply.failure, iterationCount, minWait, random(iterationCount))];
      }
    }
    outcome, requests := Undefined, iterationCount;
  }

  /** What the loop returns is the first response, with the number of requests made before it;
      what it raises belongs to the last request, which failed, and none before it was answered. */
  lemma FirstAnswerOrLastFailure<R>(upstream: nat -> Reply<R>, maxRetry: int, n: nat)
    requires StopsAt(upstream, maxRetry, n)
    ensures forall k: nat | 0 < k < n :: !upstream(k).Answered?
    ensures
      match Conclusion(upstream(n), n, maxRetry)
      case Returned(response, retries) => upstream(n) == Answered(response) && retries == n - 1
      case Raised(error) => upstream(n).Failed? && Verdict(upstream(n).failure, n, maxRetry) == Some(error)
      case Undefined => upstream(n).Nothing?
  {
  }

  /** The number of the last request the loop may make. */
  function LastAllowed(maxRetry: int): nat { if maxRetry < 0 then 1 else maxRetry + 1 }

  /** At most one request more than the allowed retries, and one in any case. */
  lemma RequestsBounded<R>(upstream: nat -> Reply<R>, maxRetry: int, n: nat)
    requires StopsAt(upstream, maxRetry, n)
    ensures n <= LastAllowed(maxRetry)
  {
    assert Stops(upstream(LastAllowed(maxRetry)), LastAllowed(maxRetry), maxRetry);
  }

  /** A reply after which another request is made if one is left: nothing at all, no response,
      or a status the library retries. */
  predicate Unsettled<R>(reply: Reply<R>) {
    reply.Nothing?
    || (reply.Failed? && reply.failure.Axios? && (reply.failure.status == 0 || RetriedStatus(reply.failure.status)))
  }

  lemma UnsettledGoesOn<R>(upstream: nat -> Reply<R>, maxRetry: int, k: nat)
    requires 0 < k < LastAllowed(maxRetry)
    ensures Stops(upstream(k), k, maxRetry) <==> !Unsettled(upstream(k))
  {
  }

  /** The loop is left without a result exactly when the last request it may make ends in
      neither a response nor an error and every one before it left matters unsettled. */
  lemma UndefinedIff<R>(upstream: nat -> Reply<R>, maxRetry: int, n: nat)
    requires StopsAt(upstream, maxRetry, n)
    ensures Conclusion(upstream(n), n, maxRetry).Undefined? <==>
              && upstream(LastAllowed(maxRetry)).Nothing?
              && forall k: nat | 0 < k < LastAllowed(maxRetry) :: Unsettled(upstream(k))
  {
    var last := LastAllowed(maxRetry);
    RequestsBounded(upstream, maxRetry, n);
    forall k: nat | 0 < k < last ensures Stops(upstream(k), k, maxRetry) <==> !Unsettled(upstream(k)) {
      UnsettledGoesOn(upstream, maxRetry, k);
    }
  }

  /** That does happen: with an instance that never resolves to anything, however often the
      request may be repeated. */
  lemma SilenceIsUndefined(maxRetry: int)
    ensures var silent: nat -> Reply<string> := k => Nothing;
            StopsAt(silent, maxRetry, LastAllowed(maxRetry))
            && Conclusion(silent(LastAllowed(maxRetry)), LastAllowed(maxRetry), maxRetry) == Undefined
  {
  }

  function Total(waits: seq<int>): int {
    if waits == [] then 0 else Total(waits[..|waits| - 1]) + waits[|waits| - 1]
  }

  lemma {:induction false} TotalBounded(waits: seq<int>, most: nat)
    requires forall i | 0 <= i < |waits| :: 0 <= waits[i] <= most
    ensures 0 <= Total(waits) <= |waits| * most
  {
    if waits != [] {
      TotalBounded(waits[..|waits| - 1], most);
      assert |waits| * most == (|waits| - 1) * most + most;
    }
  }

  /** The requests before the n-th that failed, in order. */
  function Failures<R>(upstream: nat -> Reply<R>, n: nat): seq<nat> {
    if n <= 1 then [] else Failures(upstream, n - 1) + (if upstream(n - 1).Failed? then [n - 1] else [])
  }

  lemma {:induction false} FailuresExactly<R>(upstream: nat -> Reply<R>, n: nat)
    requires n > 0
    ensures |Failures(upstream, n)| < n
    ensures forall k: nat :: k in Failures(upstream, n) <==> 0 < k < n && upstream(k).Failed?
    ensures forall i, j | 0 <= i < j < |Failures(upstream, n)| :: Failures(upstream, n)[i] < Failures(upstream, n)[j]
  {
    if n > 1 {
      FailuresExactly(upstream, n - 1);
      var before := Failures(upstream, n - 1);
      forall i | 0 <= i < |before| ensures before[i] < n - 1 { assert before[i] in before; }
    }
  }

  /** The i-th wait is that after the i-th failure. */
  lemma {:induction false} WaitAt<R>(upstream: nat -> Reply<R>, random: nat -> real, minWait: real, n: nat, i: nat)
    requires i < |Failures(upstream, n)|
    ensures |Waits(upstream, random, minWait, n)| == |Failures(upstream, n)|
    ensures
      var k := Failures(upstream, n)[i];
      upstream(k).Failed? && Waits(upstream, random, minWait, n)[i] == Delay(upstream(k).failure, k, minWait, random(k))
  {
    WaitCount(upstream, random, minWait, n);
    WaitCount(upstream, random, minWait, n - 1);
    if i < |Failures(upstream, n - 1)| { WaitAt(upstream, random, minWait, n - 1, i); }
  }

  lemma {:induction false} WaitCount<R>(upstream: nat -> Reply<R>, random: nat -> real, minWait: real, n: nat)
    ensures |Waits(upstream, random, minWait, n)| == |Failures(upstream, n)|
  {
    if n > 1 { WaitCount(upstream, random, minWait, n - 1); }
  }

  /** There is exactly one wait for each failure that is repeated, in the order of the failures
      and of that failure's length: as many waits as failures before the request that ends the
      loop, and for each of those its own. */
  lemma WaitsFollowFailures<R>(upstream: nat -> Reply<R>, random: nat -> real, minWait: real, n: nat)
    requires n > 0
    ensures |Waits(upstream, random, minWait, n)| == |Failures(upstream, n)|
    ensures forall k: nat :: k in Failures(upstream, n) <==> 0 < k < n && upstream(k).Failed?
    ensures forall i, j | 0 <= i < j < |Failures(upstream, n)| :: Failures(upstream, n)[i] < Failures(upstream, n)[j]
    ensures forall i | 0 <= i < |Failures(upstream, n)| ::
              var k := Failures(upstream, n)[i];
              upstream(k).Failed? && Waits(upstream, random, minWait, n)[i]
                  == Delay(upstream(k).failure, k, minWait, random(k))
  {
    WaitCount(upstream, random, minWait, n);
    FailuresExactly(upstream, n);
    forall i: nat | i < |Failures(upstream, n)|
      ensures
        var k := Failures(upstream, n)[i];
        upstream(k).Failed? && Waits(upstream, random, minWait, n)[i]
            == Delay(upstream(k).failure, k, minWait, random(k))
    {
      WaitAt(upstream, random, minWait, n, i);
    }
  }

  /** All the waiting of one call is bounded. */
  lemma WaitingBounded<R>(upstream: nat -> Reply<R>, random: nat -> real, minWait: real, maxRetry: nat, n: nat)
    requires StopsAt(upstream, maxRetry, n)
    requires 0.0 <= minWait && forall k: nat :: 0.0 <= random(k) < 1.0
    ensures 0 <= Total(Waits(upstream, random, minWait, n)) <= maxRetry * MAX_HEADER_WAIT_MS
  {
    var waits := Waits(upstream, random, minWait, n);
    WaitsFollowFailures(upstream, random, minWait, n);
    FailuresExactly(upstream, n);
    RequestsBounded(upstream, maxRetry, n);
    forall i | 0 <= i < |waits| ensures 0 <= waits[i] <= MAX_HEADER_WAIT_MS {
      var k := Failures(upstream, n)[i];
      DelayBounds(upstream(k).failure, k, minWait, random(k));
    }
    TotalBounded(waits, MAX_HEADER_WAIT_MS);
  }

  /** While a call that may still be retried failed, it was for want of a response or with a
      status the library retries; every other failure is raised at once. */
  lemma RetriedOnlyWhenWorthwhile<R>(upstream: nat -> Reply<R>, maxRetry: int, n: nat, k: nat)
    requires StopsAt(upstream, maxRetry, n) && 0 < k < n && upstream(k).Failed?
    ensures upstream(k).failure.Axios? && k <= maxRetry
    ensures upstream(k).failure.status == 0 || RetriedStatus(upstream(k).failure.status)
  {
    assert !Stops(upstream(k), k, maxRetry);
  }
}

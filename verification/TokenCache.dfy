/** The access token of the client credentials flow: cached, refreshed by one exchange that
    all callers share, over every interleaving of calls, exchanges and time. */
module TokenCache {
  import opened Results
  import opened HttpRetry

  const EXPIRY_BUFFER_MS := 300.0 * 1000.0
  const MAX_RETRY := 3

  /** What the token endpoint answers; `expiresIn` is None when it is not a number. */
  datatype TokenResponse = TokenResponse(accessToken: string, expiresIn: Option<real>)

  /** The date a token expires, if one was stored; it is invalid when the answer had no usable
      number. */
  datatype Expiry = NoDate | InvalidDate | At(ms: real)

  /** How an exchange ends: before any request is made, or as the request loop does. */
  datatype ExchangeEnd = Failed(error: SdkError) | Loop(outcome: Outcome<TokenResponse>)

  datatype Value = Token(token: Option<string>) | Thrown(error: SdkError)

  /** What a caller got: the cached token, with so much time left, or the value of an
      exchange. */
  datatype Settled = Cached(token: string, left: real) | Exchanged(id: nat, value: Value)

  /** The promise that is kept while an exchange is under way, and until its `finally` has
      run. */
  datatype Promise = Promise(id: nat, value: Option<Value>)

  /** A finished exchange: how it ended, and the token held just before. */
  datatype Finished = Finished(end: ExchangeEnd, held: Option<string>)

  /** The fields, and the history: which exchanges were started and how they ended, and what
      each call waits for or got. */
  datatype State = State(
    token: Option<string>, expiry: Expiry, buffer: real, promise: Option<Promise>,
    exchanges: nat, running: set<nat>, finished: map<nat, Finished>,
    calls: nat, waiting: map<nat, nat>, settled: map<nat, Settled>
  )

  datatype Event =
    | Call(now: real)
    | Finish(end: ExchangeEnd, now: real, random: real)
    | Finally

  const INITIAL := State(None, NoDate, 0.0, None, 0, {}, map[], 0, map[], map[])

  // ---------- steps ----------

  /** The token may be served: there is one, and it outlives the buffer. */
  predicate Serves(token: Option<string>, expiry: Expiry, buffer: real, now: real) {
    && token.Some? && token.value != ""
    && match expiry
       case NoDate => true
       case InvalidDate => false
       case At(ms) => ms - now > buffer
  }

  function TimeLeft(expiry: Expiry, now: real): real {
    if expiry.At? then expiry.ms - now else 0.0
  }

  /** Whatever the endpoint answers with an HTTP error is an authentication error. */
  function AsAuthentication(e: SdkError): SdkError {
    if e.Api? then Api(Authentication, e.status, e.code) else e
  }

  /** What an exchange yields: its own token if the loop returned a response, the token held
      before if the loop was left without one, or the error. */
  function ValueOf(f: Finished): Value {
    match f.end
    case Failed(error) => Thrown(error)
    case Loop(outcome) =>
      match outcome
      case Returned(response, _) => Token(Some(response.accessToken))
      case Raised(error) => Thrown(AsAuthentication(error))
      case Undefined => Token(f.held)
  }

  function ExpiryOf(response: TokenResponse, now: real): Expiry {
    if response.expiresIn.Some? then At(now + response.expiresIn.value * 1000.0) else InvalidDate
  }

  function BufferFor(random: real): real { EXPIRY_BUFFER_MS + random * 300000.0 }

  function SettleWaiting(s: State, id: nat, value: Value): map<nat, Settled> {
    map c | c in s.waiting.Keys + s.settled.Keys :: if c in s.waiting then Exchanged(id, value) else s.settled[c]
  }

  function DoCall(s: State, now: real): State {
    var t := s.(calls := s.calls + 1);
    if Serves(s.token, s.expiry, s.buffer, now) then
      t.(settled := s.settled[s.calls := Cached(s.token.value, TimeLeft(s.expiry, now))])
    else if s.promise.Some? then t.(waiting := s.waiting[s.calls := s.promise.value.id])
    else
      t.(promise := Some(Promise(s.exchanges, None)), exchanges := s.exchanges + 1,
         running := s.running + {s.exchanges}, waiting := s.waiting[s.calls := s.exchanges])
  }

  function DoFinish(s: State, end: ExchangeEnd, now: real, random: real): State
    requires s.promise.Some?
  {
    var id, f := s.promise.value.id, Finished(end, s.token);
    var t := s.(promise := Some(Promise(id, Some(ValueOf(f)))), running := s.running - {id},
                finished := s.finished[id := f]);
    if end.Loop? && end.outcome.Returned? then
      var response := end.outcome.response;
      t.(token := Some(response.accessToken), expiry := ExpiryOf(response, now), buffer := BufferFor(random))
    else t
  }

  /** What an event changes; an event that cannot happen changes nothing. */
  function Step(s: State, e: Event): State {
    match e
    case Call(now) => DoCall(s, now)
    case Finish(end, now, random) =>
      if s.promise.Some? && s.promise.value.value.None? then DoFinish(s, end, now, random) else s
    case Finally =>
      if s.promise.Some? && s.promise.value.value.Some? then
        s.(promise := None, waiting := map[],
           settled := SettleWaiting(s, s.promise.value.id, s.promise.value.value.value))
      else s
  }

  function Run(events: seq<Event>): State {
    if events == [] then INITIAL else Step(Run(events[..|events| - 1]), events[|events| - 1])
  }

  // ---------- the object ----------

  class Credentials {
    var accessToken: Option<string>
    var accessTokenExpiryDate: Expiry
    var accessTokenExpiryBufferInMs: real
    var refreshAccessTokenPromise: Option<Promise>
    var exchanges: nat
    var calls: nat
    var waiting: map<nat, nat>
    var settled: map<nat, Settled>
    ghost var running: set<nat>
    ghost var finished: map<nat, Finished>

    ghost function View(): State
      reads this
    {
      State(accessToken, accessTokenExpiryDate, accessTokenExpiryBufferInMs, refreshAccessTokenPromise,
            exchanges, running, finished, calls, waiting, settled)
    }

    constructor ()
      ensures View() == INITIAL
    {
      accessToken, accessTokenExpiryDate, accessTokenExpiryBufferInMs, refreshAccessTokenPromise :=
          None, NoDate, 0.0, None;
      exchanges, calls, waiting, settled := 0, 0, map[], map[];
      running, finished := {}, map[];
    }

    /** `getAccessTokenValue` at a time. */
    method GetAccessTokenValue(now: real) returns (call: nat)
      modifies this
      ensures View() == Step(old(View()), Call(now)) && call == old(calls)
    {
      call := calls;
      calls := calls + 1;
      var tokenIsValid := match accessTokenExpiryDate {
        case NoDate => true
        case InvalidDate => false
        case At(ms) => ms - now > accessTokenExpiryBufferInMs
      };
      if accessToken.Some? && accessToken.value != "" && tokenIsValid {
        settled := settled[call := Cached(accessToken.value, TimeLeft(accessTokenExpiryDate, now))];
        return;
      }
      if refreshAccessTokenPromise.None? {
        refreshAccessTokenPromise := Some(Promise(exchanges, None));
        running := running + {exchanges};
        exchanges := exchanges + 1;
      }
      waiting := waiting[call := refreshAccessTokenPromise.value.id];
    }

    /** The rest of `refreshAccessToken`, once its request loop is done. */
    method FinishExchange(end: ExchangeEnd, now: real, random: real)
      requires refreshAccessTokenPromise.Some? && refreshAccessTokenPromise.value.value.None?
      modifies this
      ensures View() == Step(old(View()), Finish(end, now, random))
    {
      var id := refreshAccessTokenPromise.value.id;
      running, finished := running - {id}, finished[id := Finished(end, accessToken)];
      var value: Value;
      match end {
        case Failed(error) =>
          value := Thrown(error);
        case Loop(outcome) =>
          if outcome.Returned? {
            var response := outcome.response;
            accessToken := Some(response.accessToken);
            accessTokenExpiryDate := ExpiryOf(response, now);
            accessTokenExpiryBufferInMs := BufferFor(random);
          }
          value := if outcome.Raised? then Thrown(AsAuthentication(outcome.error)) else Token(accessToken);
      }
      refreshAccessTokenPromise := Some(Promise(id, Some(value)));
    }

    /** The `finally` of the refresh, and the settling of its promise. */
    method ClearPromise()
      requires refreshAccessTokenPromise.Some? && refreshAccessTokenPromise.value.value.Some?
      modifies this
      ensures View() == Step(old(View()), Finally)
    {
      var promise := refreshAccessTokenPromise.value;
      refreshAccessTokenPromise := None;
      settled := map c | c in waiting.Keys + settled.Keys ::
        if c in waiting then Exchanged(promise.id, promise.value.value) else settled[c];
      waiting := map[];
    }
  }

  // ---------- what every interleaving keeps ----------

  /** The exchange under way is the one of the promise, and everybody who waits waits for it. */
  ghost predicate SingleFlight(s: State) {
    && s.running == (if s.promise.Some? && s.promise.value.value.None? then {s.promise.value.id} else {})
    && (s.promise.Some? ==> s.promise.value.id < s.exchanges)
    && (forall c | c in s.waiting :: s.promise.Some? && s.waiting[c] == s.promise.value.id)
    && (forall id | id in s.finished :: id < s.exchanges && id !in s.running)
  }

  /** Each call waits or has settled, never both. */
  ghost predicate Accounted(s: State) {
    && (forall c: nat :: c < s.calls <==> c in s.waiting || c in s.settled)
    && (forall c | c in s.waiting :: c !in s.settled)
  }

  /** Values are those of finished exchanges, and tokens served from the cache had time left. */
  ghost predicate Honest(s: State) {
    && (s.promise.Some? && s.promise.value.value.Some? ==>
          s.promise.value.id in s.finished && s.promise.value.value.value == ValueOf(s.finished[s.promise.value.id]))
    && (forall c | c in s.settled :: HonestCall(s.finished, s.settled[c]))
    && (s.token.Some? ==> !s.expiry.NoDate? && s.buffer >= EXPIRY_BUFFER_MS)
  }

  ghost predicate HonestCall(finished: map<nat, Finished>, x: Settled) {
    match x
    case Cached(token, left) => token != "" && left > EXPIRY_BUFFER_MS
    case Exchanged(id, value) => id in finished && value == ValueOf(finished[id])
  }

  ghost predicate Inv(s: State) { SingleFlight(s) && Accounted(s) && Honest(s) }

  ghost predicate InRange(e: Event) { e.Finish? ==> 0.0 <= e.random < 1.0 }

  lemma CallKeepsFlight(s: State, now: real)
    requires SingleFlight(s)
    ensures SingleFlight(DoCall(s, now))
  {
  }

  lemma CallKeepsAccount(s: State, now: real)
    requires Accounted(s)
    ensures Accounted(DoCall(s, now))
  {
    assert s.calls !in s.waiting && s.calls !in s.settled;
  }

  lemma CallKeepsHonest(s: State, now: real)
    requires Honest(s)
    ensures Honest(DoCall(s, now))
  {
    var t := DoCall(s, now);
    forall c | c in t.settled ensures HonestCall(t.finished, t.settled[c]) {
      if c != s.calls { assert HonestCall(s.finished, s.settled[c]); }
    }
  }

  lemma CallKeepsInv(s: State, now: real)
    requires Inv(s)
    ensures Inv(DoCall(s, now))
  {
    CallKeepsFlight(s, now);
    CallKeepsAccount(s, now);
    CallKeepsHonest(s, now);
  }

  lemma FinishKeepsInv(s: State, end: ExchangeEnd, now: real, random: real)
    requires Inv(s) && s.promise.Some? && s.promise.value.value.None? && 0.0 <= random < 1.0
    ensures Inv(DoFinish(s, end, now, random))
  {
    var t, id := DoFinish(s, end, now, random), s.promise.value.id;
    assert id in s.running && id !in s.finished;
    forall c | c in t.settled ensures HonestCall(t.finished, t.settled[c]) {
      assert HonestCall(s.finished, s.settled[c]);
    }
  }

  lemma FinallyKeepsInv(s: State)
    requires Inv(s) && s.promise.Some? && s.promise.value.value.Some?
    ensures Inv(Step(s, Finally))
  {
    var t := Step(s, Finally);
    forall c | c in t.settled ensures HonestCall(t.finished, t.settled[c]) {
      if c !in s.waiting { assert HonestCall(s.finished, s.settled[c]); }
    }
  }

  lemma StepKeepsInv(s: State, e: Event)
    requires Inv(s) && InRange(e)
    ensures Inv(Step(s, e))
  {
    match e
    case Call(now) => CallKeepsInv(s, now);
    case Finish(end, now, random) =>
      if s.promise.Some? && s.promise.value.value.None? { FinishKeepsInv(s, end, now, random); }
    case Finally =>
      if s.promise.Some? && s.promise.value.value.Some? { FinallyKeepsInv(s); }
  }

  lemma {:induction false} InvInEveryRun(events: seq<Event>)
    requires forall e | e in events :: InRange(e)
    ensures Inv(Run(events))
  {
    if events != [] {
      InvInEveryRun(events[..|events| - 1]);
      StepKeepsInv(Run(events[..|events| - 1]), events[|events| - 1]);
    }
  }

  // ---------- what that means ----------

  /** In every run at most one exchange is under way; calls that wait all wait for the one that
      is, or has just ended; and no call that was made is forgotten. */
  lemma OneExchange(events: seq<Event>)
    requires forall e | e in events :: InRange(e)
    ensures
      var s := Run(events);
      && |s.running| <= 1
      && (forall c, d | c in s.waiting && d in s.waiting :: s.waiting[c] == s.waiting[d])
      && (forall c: nat | c < s.calls :: c in s.waiting || c in s.settled)
  {
    InvInEveryRun(events);
  }

  /** In every run, a token that was served from the cache had more than 300 seconds left, and
      what an exchange gave is its own value: its own token when its loop returned a response. */
  lemma ServedTokens(events: seq<Event>, c: nat)
    requires (forall e | e in events :: InRange(e)) && c in Run(events).settled
    ensures
      var s := Run(events);
      match s.settled[c]
      case Cached(token, left) => token != "" && left > 300000.0
      case Exchanged(id, value) => id in s.finished && Yields(s.finished[id], value)
  {
    InvInEveryRun(events);
    var s := Run(events);
    assert HonestCall(s.finished, s.settled[c]);
    if s.settled[c].Exchanged? { YieldsItsValue(s.finished[s.settled[c].id]); }
  }

  /** What an exchange that ended so may give to those who waited for it. */
  predicate Yields(f: Finished, value: Value) {
    match f.end
    case Failed(error) => value == Thrown(error)
    case Loop(outcome) =>
      match outcome
      case Returned(response, _) => value.Token? && value.token == Some(response.accessToken)
      case Undefined => value.Token? && value.token == f.held
      case Raised(error) =>
        && value.Thrown?
        && if error.Api? then value.error == Api(Authentication, error.status, error.code) else value.error == error
  }

  lemma YieldsItsValue(f: Finished)
    ensures Yields(f, ValueOf(f))
  {
  }

  /** A call is served from the cache exactly when there is a token that is not empty and its
      expiry is further away than the buffer; otherwise it joins the exchange under way, or
      starts one. */
  lemma CallIsServedIff(s: State, now: real)
    requires Inv(s)
    ensures
      var t := Step(s, Call(now));
      && (s.calls in t.settled <==>
            s.token.Some? && s.token.value != "" && s.expiry.At? && s.expiry.ms - now > s.buffer)
      && (s.calls in t.settled ==> t.settled[s.calls] == Cached(s.token.value, s.expiry.ms - now))
      && (s.calls !in t.settled ==>
            && t.promise.Some? && t.waiting == s.waiting[s.calls := t.promise.value.id]
            && if s.promise.Some? then t.promise == s.promise else t.promise == Some(Promise(s.exchanges, None)))
  {
    assert s.calls !in s.settled;
  }

  /** What a call was given never changes. */
  lemma SettlesOnce(s: State, e: Event)
    requires Inv(s)
    ensures forall c | c in s.settled :: c in Step(s, e).settled && Step(s, e).settled[c] == s.settled[c]
  {
  }

  /** Everybody who waits is given the value of the promise, at once, and nobody else anything. */
  lemma WaitersAreSettled(s: State)
    requires Inv(s) && s.promise.Some? && s.promise.value.value.Some?
    ensures
      var t := Step(s, Finally);
      && t.promise.None? && t.waiting == map[] && t.settled.Keys == s.settled.Keys + s.waiting.Keys
      && forall c | c in s.waiting ::
           t.settled[c] == Exchanged(s.promise.value.id, s.promise.value.value.value)
  {
  }

  /** The end of an exchange: a response replaces the token and its expiry, with a buffer of 300 to
      600 seconds; anything else leaves all three as they were. */
  lemma OnlyResponsesAreStored(s: State, end: ExchangeEnd, now: real, random: real)
    requires s.promise.Some? && s.promise.value.value.None? && 0.0 <= random < 1.0
    ensures
      var t := Step(s, Finish(end, now, random));
      if end.Loop? && end.outcome.Returned? then
        var response := end.outcome.response;
        && t.token == Some(response.accessToken) && 300000.0 <= t.buffer < 600000.0
        && t.expiry == if response.expiresIn.Some? then At(now + 1000.0 * response.expiresIn.value) else InvalidDate
      else t.token == s.token && t.expiry == s.expiry && t.buffer == s.buffer
  {
  }

  /** The buffer may be any between them. */
  lemma BufferReaches(buffer: real)
    requires 300000.0 <= buffer < 600000.0
    ensures exists random: real :: 0.0 <= random < 1.0 && BufferFor(random) == buffer
  {
    var random := (buffer - 300000.0) / 300000.0;
    assert BufferFor(random) == buffer;
  }

  /** A call is given a token that is not its exchange's own exactly when the request loop was
      left without a result: with the three retries the library allows, when the fourth request
      ends in neither a response nor an error and the three before it left matters unsettled. */
  lemma StaleOnlyWhenNothingCame(f: Finished, upstream: nat -> Reply<TokenResponse>, n: nat)
    requires StopsAt(upstream, MAX_RETRY, n) && f.end == Loop(Conclusion(upstream(n), n, MAX_RETRY))
    ensures ValueOf(f).Token? && !f.end.outcome.Returned? <==>
              upstream(4).Nothing? && forall k: nat | 0 < k < 4 :: Unsettled(upstream(k))
    ensures f.end.outcome.Returned? ==> ValueOf(f) == Token(Some(upstream(n).response.accessToken))
  {
    UndefinedIff(upstream, MAX_RETRY, n);
  }

  /** A call that finds the token expired is given it all the same if its exchange comes to
      nothing. */
  lemma HandsOutStale(s: State, stale: string, now: real, random: real)
    requires s.token == Some(stale) && s.expiry == At(now) && s.buffer >= 0.0 && s.promise.None?
    ensures
      var t := Step(Step(Step(s, Call(now)), Finish(Loop(Undefined), now, random)), Finally);
      && s.calls in t.settled && t.settled[s.calls] == Exchanged(s.exchanges, Token(Some(stale)))
      && s.exchanges in t.finished && t.finished[s.exchanges] == Finished(Loop(Undefined), Some(stale))
  {
  }

  lemma FirstRefresh(response: TokenResponse, now: real, random: real)
    ensures
      var t := Step(Step(Step(INITIAL, Call(now)), Finish(Loop(Returned(response, 0)), now, random)), Finally);
      && t.token == Some(response.accessToken) && t.expiry == ExpiryOf(response, now) && t.buffer == BufferFor(random)
      && t.promise.None? && t.calls == 1 && t.exchanges == 1
  {
  }

  /** Such a run: a first exchange stores a token that has expired at once; the exchange for the
      second call ends without a result, and the call is given the old token. */
  lemma StaleHappens(stale: string, now: real, random: real) returns (events: seq<Event>)
    requires 0.0 <= random < 1.0
    ensures forall e | e in events :: InRange(e)
    ensures 1 in Run(events).settled && Run(events).settled[1] == Exchanged(1, Token(Some(stale)))
    ensures 1 in Run(events).finished && Run(events).finished[1] == Finished(Loop(Undefined), Some(stale))
  {
    var response := TokenResponse(stale, Some(0.0));
    var first, second := Finish(Loop(Returned(response, 0)), now, random), Finish(Loop(Undefined), now, random);
    var refreshed := [] + [Call(now)] + [first] + [Finally];
    events := refreshed + [Call(now)] + [second] + [Finally];
    FirstRefresh(response, now, random);
    ThreeSteps([], Call(now), first, Finally);
    HandsOutStale(Run(refreshed), stale, now, random);
    ThreeSteps(refreshed, Call(now), second, Finally);
  }

  lemma RunStep(events: seq<Event>, e: Event)
    ensures Run(events + [e]) == Step(Run(events), e)
  {
    assert (events + [e])[..|events|] == events;
  }

  lemma ThreeSteps(before: seq<Event>, a: Event, b: Event, c: Event)
    ensures Run(before + [a] + [b] + [c]) == Step(Step(Step(Run(before), a), b), c)
  {
    RunStep(before, a);
    RunStep(before + [a], b);
    RunStep(before + [a] + [b], c);
  }

  /** A token that lives for no longer than the buffer is given to those who waited for it, and
      to nobody after: the next call starts an exchange of its own. */
  lemma ShortLivedIsNotReused(s: State, response: TokenResponse, retries: nat, now: real, random: real, later: real)
    requires Inv(s) && s.promise.Some? && s.promise.value.value.None? && 0.0 <= random < 1.0
    requires response.expiresIn.Some? ==> response.expiresIn.value <= 300.0
    requires now <= later
    ensures
      var t := Step(Step(s, Finish(Loop(Returned(response, retries)), now, random)), Finally);
      var u := Step(t, Call(later));
      && (forall c | c in s.waiting :: t.settled[c] == Exchanged(s.promise.value.id, Token(Some(response.accessToken))))
      && u.running == {s.exchanges} && u.waiting[t.calls] == s.exchanges
  {
    FinishKeepsInv(s, Loop(Returned(response, retries)), now, random);
  }

  /** A token that lives longer than the largest buffer of 600 seconds is served from the cache
      until that much of its life is left, at least. */
  lemma LongLivedIsServed(s: State, response: TokenResponse, retries: nat, now: real, random: real, later: real)
    requires s.promise.Some? && s.promise.value.value.None? && 0.0 <= random < 1.0
    requires response.accessToken != "" && response.expiresIn.Some?
    requires later - now <= response.expiresIn.value * 1000.0 - 600000.0
    ensures
      var t := Step(Step(s, Finish(Loop(Returned(response, retries)), now, random)), Finally);
      var u := Step(t, Call(later));
      u.settled[t.calls] == Cached(response.accessToken, now + response.expiresIn.value * 1000.0 - later)
  {
    var t := Step(Step(s, Finish(Loop(Returned(response, retries)), now, random)), Finally);
    assert t.expiry == At(now + response.expiresIn.value * 1000.0) && t.buffer < 600000.0;
  }
}

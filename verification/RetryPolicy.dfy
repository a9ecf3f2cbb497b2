/** What the authorization service does with failed OpenFGA calls: which are tried again,
    how often, and what its own client is told in the end. */
module RetryPolicy {
  import opened Results
  import opened HttpRetry

  /** The errors of the service: 400 or 502. */
  datatype ClientError = BadRequest | UpstreamError

  /** A failed call or lookup: the error the client would see, whether one retry may help, and
      the library's own error, which a timeout has not. */
  datatype Fault = Fault(error: ClientError, retryable: bool, cause: Option<SdkError>)

  /** How a call through the library ends within its time. */
  datatype Answer<+T> = Good(value: T) | Threw(error: SdkError) | TimedOut

  // ---------- reading errors ----------

  predicate IsStoreGone(cause: Option<SdkError>) {
    && cause.Some? && cause.value.Api?
    && (cause.value.kind.NotFound? || (cause.value.kind.Validation? && !cause.value.code.OtherCode?))
  }

  predicate IsRetryable(e: SdkError) {
    if e.Api? then e.status >= 500 else e.Plain?
  }

  /** The library or OpenFGA found the request itself invalid. */
  predicate IsInvalid(e: SdkError) { e.Invalid? || (e.Api? && e.kind.Validation?) }

  function ToError(e: SdkError): ClientError {
    if IsInvalid(e) then BadRequest else UpstreamError
  }

  function Upstream(): Fault { Fault(UpstreamError, false, None) }

  function FaultOf<T>(a: Answer<T>): Fault
    requires !a.Good?
  {
    match a
    case Threw(e) => Fault(ToError(e), IsRetryable(e), Some(e))
    case TimedOut => Upstream()
  }

  /** With the library's own retries switched off, the service retries what got no response,
      what was not an HTTP error at all, and every status from 500 on. So it retries 501,
      which the library would not, and does not retry 429, which the library would. */
  lemma RetriedFailures(f: Failure)
    ensures Verdict(f, 1, 0).Some?
    ensures IsRetryable(Verdict(f, 1, 0).value) <==> f.NotAxios? || f.status == 0 || f.status >= 500
    ensures f.Axios? && f.status != 0 ==> (IsRetryable(Verdict(f, 1, 0).value) != RetriedStatus(f.status)
        <==> f.status == 429 || f.status == 501)
  {
  }

  /** The store counts as gone for every 404, and for 400 and 422 with a code that says so. */
  lemma GoneFailures(f: Failure)
    ensures IsStoreGone(Verdict(f, 1, 0)) <==>
              f.Axios? && (f.status == 404 || ((f.status == 400 || f.status == 422) && !f.code.OtherCode?))
  {
  }

  /** Which failures are the client's own: those with status 400 or 422, and what the library
      itself found invalid. */
  lemma ClientFailures(f: Failure)
    ensures Verdict(f, 1, 0).Some?
    ensures ToError(Verdict(f, 1, 0).value) ==
              if f.Axios? && (f.status == 400 || f.status == 422) then BadRequest else UpstreamError
    ensures ToError(SdkError.Invalid) == BadRequest && ToError(Foreign) == UpstreamError
  {
  }

  // ---------- the lookup ----------

  datatype Store = Store(id: string, name: string)
  datatype Target = Target(storeId: string, modelId: Option<string>)

  function FirstNamed(stores: seq<Store>, name: string): Option<string> {
    if stores == [] then None
    else if stores[0].name == name then Some(stores[0].id)
    else FirstNamed(stores[1..], name)
  }

  function StoreId(pinnedStore: Option<string>, name: string, stores: Answer<seq<Store>>): Result<string, Fault> {
    if pinnedStore.Some? then Ok(pinnedStore.value)
    else if !stores.Good? then Err(FaultOf(stores))
    else
      match FirstNamed(stores.value, name)
      case Some(id) => Ok(id)
      case None => Err(Upstream())
  }

  function Lookup(pinnedStore: Option<string>, pinnedModel: Option<string>, name: string,
                  stores: Answer<seq<Store>>, models: Answer<seq<string>>): Result<Target, Fault> {
    match StoreId(pinnedStore, name, stores)
    case Err(f) => Err(f)
    case Ok(id) =>
      if pinnedModel.Some? && pinnedModel.value != "" then Ok(Target(id, pinnedModel))
      else if !models.Good? then Err(FaultOf(models))
      else Ok(Target(id, if models.value == [] then None else Some(models.value[0])))
  }

  /** The store is the first with exactly the name, in the order listed. */
  lemma {:induction false} FirstNamedIsFirst(stores: seq<Store>, name: string)
    ensures FirstNamed(stores, name).None? <==> forall i | 0 <= i < |stores| :: stores[i].name != name
    ensures FirstNamed(stores, name).Some? ==>
              exists i | 0 <= i < |stores| && stores[i] == Store(FirstNamed(stores, name).value, name) ::
                forall j | 0 <= j < i :: stores[j].name != name
  {
    if stores != [] {
      FirstNamedIsFirst(stores[1..], name);
      if stores[0].name != name && FirstNamed(stores[1..], name).Some? {
        var i :| 0 <= i < |stores[1..]| && stores[1..][i] == Store(FirstNamed(stores[1..], name).value, name)
                 && forall j | 0 <= j < i :: stores[1..][j].name != name;
        assert stores[i + 1] == stores[1..][i];
        forall j | 0 <= j < i + 1 ensures stores[j].name != name {
          if j > 0 { assert stores[j] == stores[1..][j - 1]; }
        }
      } else if stores[0].name != name {
        forall i | 0 <= i < |stores| ensures stores[i].name != name {
          if i > 0 { assert stores[i] == stores[1..][i - 1]; }
        }
      }
    }
  }

  /** The store is the pinned one, or the first with the name. */
  ghost predicate IsStore(pinnedStore: Option<string>, name: string, stores: Answer<seq<Store>>, id: string) {
    match pinnedStore
    case Some(pinned) => id == pinned
    case None => stores.Good? && exists i: nat :: IsFirstNamed(stores.value, i, name) && stores.value[i].id == id
  }

  ghost predicate IsFirstNamed(stores: seq<Store>, i: nat, name: string) {
    i < |stores| && stores[i].name == name && forall j | 0 <= j < i :: stores[j].name != name
  }

  /** A lookup finds a target exactly when there is such a store, and the model is the pinned one,
      or the newest that was read, if there is any. */
  lemma LookupFinds(pinnedStore: Option<string>, pinnedModel: Option<string>, name: string,
                    stores: Answer<seq<Store>>, models: Answer<seq<string>>, target: Target)
    ensures Lookup(pinnedStore, pinnedModel, name, stores, models) == Ok(target) <==>
              && IsStore(pinnedStore, name, stores, target.storeId)
              && if pinnedModel.Some? && pinnedModel.value != "" then target.modelId == pinnedModel
                 else
                   && models.Good?
                   && target.modelId == if models.value == [] then None else Some(models.value[0])
  {
    if pinnedStore.None? && stores.Good? {
      FirstNamedIsFirst(stores.value, name);
      OnlyFirst(stores.value, name, target.storeId);
    }
  }

  lemma OnlyFirst(stores: seq<Store>, name: string, id: string)
    ensures FirstNamed(stores, name) == Some(id) <==>
              exists i: nat :: IsFirstNamed(stores, i, name) && stores[i].id == id
  {
    FirstNamedIsFirst(stores, name);
    if FirstNamed(stores, name).Some? {
      var found := FirstNamed(stores, name).value;
      var k: nat :| k < |stores| && stores[k] == Store(found, name) && forall j | 0 <= j < k :: stores[j].name != name;
      assert IsFirstNamed(stores, k, name);
    }
  }

  // ---------- attempts ----------

  /** One attempt of a request: it got no target, or called OpenFGA against one. */
  datatype Attempt = NoTarget(fault: Fault) | Called(answer: Answer<Response>)

  /** What OpenFGA replied to a call; the policy does not look at it. */
  datatype Response = Response(body: string)

  datatype Ending = Success | Gone | Stopped(fault: Fault)

  function EndOf(a: Attempt): Ending {
    match a
    case NoTarget(fault) => Stopped(fault)
    case Called(answer) =>
      if answer.Good? then Success
      else if IsStoreGone(FaultOf(answer).cause) then Gone
      else Stopped(FaultOf(answer))
  }

  datatype Final = Served | Refused(error: ClientError)

  function Ends(log: seq<Attempt>): (ends: seq<Ending>)
    ensures |ends| == |log|
  {
    if log == [] then [] else Ends(log[..|log| - 1]) + [EndOf(log[|log| - 1])]
  }

  lemma {:induction false} EndsAt(log: seq<Attempt>, k: nat)
    requires k < |log|
    ensures Ends(log)[k] == EndOf(log[k])
    decreases |log|
  {
    if k < |log| - 1 { EndsAt(log[..|log| - 1], k); }
  }

  // ---------- the policy as composed from its operators ----------

  /** catchTag('StoreGone', ...) around the attempt: how many attempts, and the end. */
  function Round(script: nat -> Ending, i: nat): (nat, Ending) {
    if !script(i).Gone? then (1, script(i))
    else (2, if script(i + 1).Gone? then Stopped(Upstream()) else script(i + 1))
  }

  function Conclude(e: Ending): Final
    requires !e.Gone?
  {
    if e.Success? then Served else Refused(e.fault.error)
  }

  /** `withTarget`, given how each of its attempts ends: the number of attempts, and the end. */
  function WithTarget(script: nat -> Ending): (nat, Final) {
    var (n, end) := Round(script, 0);
    if end.Stopped? && end.fault.retryable then
      var (m, again) := Round(script, n);
      (n + m, Conclude(again))
    else (n, Conclude(end))
  }

  // ---------- the policy as a state machine ----------

  /** Where a request is: whether it has been retried, and whether this is the second attempt
      after the store was gone. */
  datatype Phase = Phase(retried: bool, second: bool)

  datatype Progress = Going(phase: Phase) | Ended(final: Final)

  const START := Phase(false, false)

  function Advance(p: Phase, e: Ending): Progress {
    match e
    case Success => Ended(Served)
    case Gone => if p.second then Ended(Refused(UpstreamError)) else Going(Phase(p.retried, true))
    case Stopped(fault) => if fault.retryable && !p.retried then Going(Phase(true, false))
        else Ended(Refused(fault.error))
  }

  /** The progress after some attempts. */
  function Replay(ends: seq<Ending>): Progress {
    if ends == [] then Going(START)
    else
      match Replay(ends[..|ends| - 1])
      case Going(p) => Advance(p, ends[|ends| - 1])
      case Ended(final) => Ended(final)
  }

  /** No attempt is made after the end. */
  ghost predicate Follows(ends: seq<Ending>) {
    ends == [] || (Follows(ends[..|ends| - 1]) && Replay(ends[..|ends| - 1]).Going?)
  }

  lemma {:induction false} FollowsPrefix(ends: seq<Ending>, n: nat)
    requires Follows(ends) && n <= |ends|
    ensures Follows(ends[..n]) && (n < |ends| ==> Replay(ends[..n]).Going?)
    decreases |ends|
  {
    if n == |ends| {
      assert ends[..n] == ends;
    } else {
      FollowsPrefix(ends[..|ends| - 1], n);
      assert ends[..|ends| - 1][..n] == ends[..n];
    }
  }

  /** Each attempt that lets the request go on uses up an allowance. */
  lemma {:induction false} GoingIsShort(ends: seq<Ending>)
    requires Follows(ends) && Replay(ends).Going?
    ensures var p := Replay(ends).phase;
            var n := |ends| - (if p.second then 1 else 0);
            if p.retried then 1 <= n <= 2 else n == 0
  {
    if ends != [] { GoingIsShort(ends[..|ends| - 1]); }
  }

  /** A request makes at most four attempts, and so at most four calls. */
  lemma AtMostFour(ends: seq<Ending>)
    requires Follows(ends)
    ensures |ends| <= 4
  {
    if ends != [] { GoingIsShort(ends[..|ends| - 1]); }
  }

  /** Four are made when OpenFGA is gone, then down, then gone again and then back. */
  lemma FourAttempts(down: Fault)
    requires down.retryable
    ensures var ends := [Gone, Stopped(down), Gone, Success]; Follows(ends) && Replay(ends) == Ended(Served)
  {
    var ends := [Gone, Stopped(down), Gone, Success];
    assert ends[..1][..0] == [] && ends[..2][..1] == ends[..1] && ends[..3][..2] == ends[..2];
    assert Follows(ends[..1]) && Replay(ends[..1]) == Going(Phase(false, true));
    assert Follows(ends[..2]) && Replay(ends[..2]) == Going(Phase(true, false));
    assert Follows(ends[..3]) && Replay(ends[..3]) == Going(Phase(true, true));
  }

  /** A request ends after its first attempt exactly when that succeeded, or failed in a way
      that is neither worth a retry nor a sign that the store is gone. */
  lemma OneAttemptIff(ends: seq<Ending>)
    requires Follows(ends) && Replay(ends).Ended?
    ensures ends != []
    ensures |ends| == 1 <==> ends[0].Success? || (ends[0].Stopped? && !ends[0].fault.retryable)
  {
    assert ends[..1][..0] == [];
    assert Replay(ends[..1]) == Advance(START, ends[0]);
    FollowsPrefix(ends, 1);
    if |ends| == 1 { assert ends[..1] == ends; }
  }

  /** What the client is told is what the last attempt came to: nothing reported belongs to an
      earlier one. */
  lemma LastDecides(ends: seq<Ending>)
    requires Follows(ends) && Replay(ends).Ended?
    ensures ends != [] && Replay(ends).final ==
              (match ends[|ends| - 1]
               case Success => Served
               case Gone => Refused(UpstreamError)
               case Stopped(fault) => Refused(fault.error))
  {
  }

  lemma FinalIsLast(ends: seq<Ending>, k: nat)
    requires Follows(ends) && k < |ends| && ends[k].Stopped? && !ends[k].fault.retryable
    ensures k == |ends| - 1 && Replay(ends) == Ended(Refused(ends[k].fault.error))
  {
    FollowsPrefix(ends, k);
    FollowsPrefix(ends, k + 1);
    assert ends[..k + 1][..k] == ends[..k];
    assert Replay(ends[..k + 1]) == Advance(Replay(ends[..k]).phase, ends[k]);
    if k + 1 == |ends| { assert ends[..k + 1] == ends; }
  }

  lemma StopIsLast(ends: seq<Ending>, k: nat, fault: Fault)
    requires Follows(ends) && k < |ends| && ends[k] == Stopped(fault) && !fault.retryable
    ensures k == |ends| - 1 && Replay(ends) == Ended(Refused(fault.error))
  {
    FinalIsLast(ends, k);
  }

  /** The call of an attempt timed out, or its lookup did, which is reported like a store that
      is not there. */
  predicate TimesOut(a: Attempt) { a == Called(TimedOut) || a == NoTarget(Upstream()) }

  lemma TimeoutEnd(a: Attempt)
    requires TimesOut(a)
    ensures EndOf(a) == Stopped(Upstream())
  {
  }

  /** A timeout is never tried again, be it of a call or of a lookup. */
  lemma TimeoutIsLast(log: seq<Attempt>, k: nat)
    requires Follows(Ends(log)) && k < |log| && TimesOut(log[k])
    ensures k == |log| - 1 && Replay(Ends(log)) == Ended(Refused(UpstreamError))
  {
    EndsAt(log, k);
    TimeoutEnd(log[k]);
    StopIsLast(Ends(log), k, Upstream());
  }

  /** A lookup times out when one of the two calls it makes does. */
  lemma LookupTimesOut(pinnedStore: Option<string>, pinnedModel: Option<string>, name: string,
                       stores: Answer<seq<Store>>, models: Answer<seq<string>>)
    requires
      || (pinnedStore.None? && stores.TimedOut?)
      || (StoreId(pinnedStore, name, stores).Ok? && (pinnedModel.None? || pinnedModel.value == "") && models.TimedOut?)
    ensures Lookup(pinnedStore, pinnedModel, name, stores, models).Err?
    ensures TimesOut(NoTarget(Lookup(pinnedStore, pinnedModel, name, stores, models).error))
  {
  }

  /** The failure that makes the client's request a bad one: a call found invalid for another
      reason than the store being gone, or a lookup that was found invalid. */
  predicate Blames(a: Attempt) {
    match a
    case NoTarget(fault) => fault.error.BadRequest?
    case Called(answer) => answer.Threw? && IsInvalid(answer.error) && !IsStoreGone(Some(answer.error))
  }

  /** The client is told its request is bad exactly when the last attempt failed that way. */
  lemma BadRequestIff(log: seq<Attempt>)
    requires Follows(Ends(log)) && Replay(Ends(log)).Ended?
    ensures log != []
    ensures Replay(Ends(log)).final == Refused(BadRequest) <==> Blames(log[|log| - 1])
  {
    LastDecides(Ends(log));
    EndsAt(log, |log| - 1);
    BlameEnd(log[|log| - 1]);
  }

  lemma BlameEnd(a: Attempt)
    ensures Blames(a) <==> EndOf(a).Stopped? && EndOf(a).fault.error.BadRequest?
  {
  }

  /** A lookup fails as invalid exactly when one of the two calls it makes was found invalid,
      whatever the code. */
  lemma LookupInvalidIff(pinnedStore: Option<string>, pinnedModel: Option<string>, name: string,
                         stores: Answer<seq<Store>>, models: Answer<seq<string>>)
    ensures
      var r := Lookup(pinnedStore, pinnedModel, name, stores, models);
      r.Err? && r.error.error.BadRequest? <==>
        || (pinnedStore.None? && stores.Threw? && IsInvalid(stores.error))
        || (StoreId(pinnedStore, name, stores).Ok? && (pinnedModel.None? || pinnedModel.value == "")
            && models.Threw? && IsInvalid(models.error))
  {
  }

  /** So one answer of OpenFGA has two meanings. "Store not found", with status 400, makes a
      call look the store up again and never surfaces as a bad request; in answer to the
      lookup of a pinned store's latest model it surfaces as a bad request at once. */
  lemma GoneLookupIsBadRequest(storeId: string, name: string, stores: Answer<seq<Store>>)
    ensures
      var gone := Api(Validation, 400, StoreIdNotFound);
      var looked := Lookup(Some(storeId), None, name, stores, Threw(gone));
      && EndOf(Called(Threw(gone))) == Gone
      && Advance(START, Gone).Going? && Replay([Gone, Gone]) == Ended(Refused(UpstreamError))
      && looked.Err? && Replay([EndOf(NoTarget(looked.error))]) == Ended(Refused(BadRequest))
  {
    assert [Gone, Gone][..1] == [Gone] && [Gone][..0] == [];
    assert Replay([Gone]) == Going(Phase(false, true));
  }

  /** What becomes of a request whose first call fails: it goes on for every 404, for a 400 or 422
      that says the store or model is gone, for want of a response, for what is no HTTP error, and
      from status 500 on; else its client is told. */
  lemma FirstCallFails(f: Failure)
    ensures
      var progress := Replay([EndOf(Called(Threw(Verdict(f, 1, 0).value)))]);
      var invalid := f.Axios? && (f.status == 400 || f.status == 422);
      && (progress.Going? <==>
            || f.NotAxios? || f.status == 0 || f.status >= 500
            || f.status == 404 || (invalid && !f.code.OtherCode?))
      && (progress.Ended? ==> progress.final == Refused(if invalid then BadRequest else UpstreamError))
  {
    ReplayOne(EndOf(Called(Threw(Verdict(f, 1, 0).value))));
  }

  /** And of one whose first lookup fails, in either of its calls: it goes on only where the call
      would be retried, and no answer sends it to look again. */
  lemma FirstLookupFails(f: Failure, pinnedModel: Option<string>, name: string, id: string,
                         stores: Answer<seq<Store>>, models: Answer<seq<string>>)
    ensures
      var listing := Lookup(None, pinnedModel, name, Threw(Verdict(f, 1, 0).value), models);
      var reading := Lookup(Some(id), None, name, stores, Threw(Verdict(f, 1, 0).value));
      && listing.Err? && reading.Err? && listing.error == reading.error
      && var progress := Replay([EndOf(NoTarget(listing.error))]);
         && (progress.Going? <==> f.NotAxios? || f.status == 0 || f.status >= 500)
         && (progress.Ended? ==>
               progress.final ==
                 Refused(if f.Axios? && (f.status == 400 || f.status == 422) then BadRequest else UpstreamError))
  {
    var listing := Lookup(None, pinnedModel, name, Threw(Verdict(f, 1, 0).value), models);
    ReplayOne(EndOf(NoTarget(listing.error)));
  }

  /** A store that is not listed is not looked for again either. */
  lemma NoSuchStore(pinnedModel: Option<string>, name: string, stores: seq<Store>, models: Answer<seq<string>>)
    requires forall i | 0 <= i < |stores| :: stores[i].name != name
    ensures
      var looked := Lookup(None, pinnedModel, name, Good(stores), models);
      looked.Err? && Replay([EndOf(NoTarget(looked.error))]) == Ended(Refused(UpstreamError))
  {
    FirstNamedIsFirst(stores, name);
    ReplayOne(EndOf(NoTarget(Upstream())));
  }

  lemma ReplayOne(end: Ending)
    ensures Replay([end]) == Advance(START, end)
  {
    assert [end][..0] == [];
  }

  // ---------- the two descriptions agree ----------

  /** The first ends of a script. */
  function Taken(script: nat -> Ending, n: nat): (ends: seq<Ending>)
    ensures |ends| == n
  {
    if n == 0 then [] else Taken(script, n - 1) + [script(n - 1)]
  }

  lemma {:induction false} TakenIsPrefix(script: nat -> Ending, n: nat, ends: seq<Ending>)
    requires forall i | 0 <= i < |ends| :: ends[i] == script(i)
    ensures if n <= |ends| then Taken(script, n) == ends[..n] else ends == Taken(script, n)[..|ends|]
  {
    if n > 0 { TakenIsPrefix(script, n - 1, ends); }
  }

  lemma TakenStep(script: nat -> Ending, n: nat)
    requires Follows(Taken(script, n)) && Replay(Taken(script, n)).Going?
    ensures Follows(Taken(script, n + 1))
    ensures Replay(Taken(script, n + 1)) == Advance(Replay(Taken(script, n)).phase, script(n))
  {
    assert Taken(script, n + 1)[..n] == Taken(script, n);
  }

  lemma RoundIsMachine(script: nat -> Ending, i: nat, retried: bool)
    requires Follows(Taken(script, i)) && Replay(Taken(script, i)) == Going(Phase(retried, false))
    ensures
      var (n, end) := Round(script, i);
      !end.Gone? && Follows(Taken(script, i + n)) && Replay(Taken(script, i + n)) == Advance(Phase(retried, false), end)
  {
    TakenStep(script, i);
    if script(i).Gone? { TakenStep(script, i + 1); }
  }

  /** Composed from its operators, the policy takes exactly the attempts the state machine
      allows, and ends as it does. */
  lemma PolicyIsMachine(script: nat -> Ending)
    ensures var (n, final) := WithTarget(script);
            Follows(Taken(script, n)) && Replay(Taken(script, n)) == Ended(final)
  {
    var (n, end) := Round(script, 0);
    RoundIsMachine(script, 0, false);
    if end.Stopped? && end.fault.retryable { RoundIsMachine(script, n, true); }
  }

  /** Ends that start alike stop at the same place. */
  lemma OneEnd(a: seq<Ending>, b: seq<Ending>)
    requires Follows(b) && Replay(a).Ended? && |a| <= |b| && a == b[..|a|]
    ensures a == b
  {
    FollowsPrefix(b, |a|);
  }

  /** And the other way round: attempts that follow the machine to an end are those the
      composed policy makes. */
  lemma MachineIsPolicy(script: nat -> Ending, ends: seq<Ending>)
    requires Follows(ends) && Replay(ends).Ended? && forall i | 0 <= i < |ends| :: ends[i] == script(i)
    ensures WithTarget(script) == (|ends|, Replay(ends).final)
  {
    PolicyIsMachine(script);
    SameEnd(script, ends, WithTarget(script).0);
  }

  lemma SameEnd(script: nat -> Ending, ends: seq<Ending>, n: nat)
    requires Follows(ends) && Replay(ends).Ended? && forall i | 0 <= i < |ends| :: ends[i] == script(i)
    requires Follows(Taken(script, n)) && Replay(Taken(script, n)).Ended?
    ensures ends == Taken(script, n)
  {
    var taken := Taken(script, n);
    TakenIsPrefix(script, n, ends);
    if n <= |ends| {
      OneEnd(taken, ends);
    } else {
      OneEnd(ends, taken);
    }
  }
}

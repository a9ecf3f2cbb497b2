/** What the shared target cache and the retry policy guarantee in every run: one lookup,
    compare-and-invalidate, requests that follow the policy and are never stuck. */
module TargetGuarantees {
  import opened Results
  import opened RetryPolicy
  import opened TargetCache

  // ---------- one lookup, and what it found ----------

  /** In every run at most one lookup is under way, it is the one everybody who waits waits
      for, and it is under way only while somebody does. */
  lemma OneLookup(ttl: nat, events: seq<Event>)
    ensures
      var s := Run(Initial(ttl), events);
      && |s.running| <= 1
      && (forall r | r in s.requests && s.requests[r].where.Waiting? :: s.running == {s.requests[r].where.id})
      && (forall id | id in s.running :: Awaited(s.requests, id))
  {
    InvInEveryRun(ttl, events);
    var s := Run(Initial(ttl), events);
    forall r | r in s.requests && s.requests[r].where.Waiting? ensures s.running == {s.requests[r].where.id} {
      assert Fits(s.entry, s.targets, s.requests[r]);
    }
  }

  /** A held target leaves the cache only when it has expired, or when a request reports this
      very target gone: the failure of an older target never discards a newer one. */
  lemma OnlyTheFailedIsDropped(s: State, e: Event)
    requires Inv(s) && s.entry.Held? && Step(s, e).entry != s.entry
    ensures
      || (e.Invalidate? && e.r in s.requests && s.requests[e.r].where.Reporting?
          && s.requests[e.r].where.target == s.entry.target && Step(s, e).entry == Empty)
      || (e.Ask? && s.entry.expiry <= s.now && Step(s, e).entry == InFlight(s.lookups))
  {
    NobodyWaits(s);
  }

  lemma NobodyWaits(s: State)
    requires Inv(s) && s.entry.Held?
    ensures s.running == {} && forall r | r in s.requests :: !s.requests[r].where.Waiting?
  {
    forall r | r in s.requests ensures !s.requests[r].where.Waiting? {
      assert Fits(s.entry, s.targets, s.requests[r]);
    }
  }

  /** And a target comes to be reported gone only by a call made against it that said so. */
  lemma ReportedAfterGone(s: State, e: Event, r: nat)
    requires r in Step(s, e).requests && Step(s, e).requests[r].where.Reporting?
    requires r !in s.requests || s.requests[r].where != Step(s, e).requests[r].where
    ensures e.Reply? && e.r == r && r in s.requests && EndOf(Called(e.answer)).Gone?
    ensures s.requests[r].where == Calling(Step(s, e).requests[r].where.target)
  {
    match e
    case Reply(_, _) =>
    case _ =>
  }

  /** In every run, a request that saw a target gone never uses it, or an older one, again. */
  lemma GoneIsNeverMetAgain(ttl: nat, events: seq<Event>, r: nat, i: nat)
    requires r in Run(Initial(ttl), events).requests
    requires i < |Run(Initial(ttl), events).requests[r].log|
    requires EndOf(Run(Initial(ttl), events).requests[r].log[i].attempt).Gone?
    requires Run(Initial(ttl), events).requests[r].log[i].target.Some?
    ensures
      var q := Run(Initial(ttl), events).requests[r];
      var gone := q.log[i].target.value;
      && (Using(q.where).Some? ==> gone < Using(q.where).value)
      && forall j | i < j < |q.log| && q.log[j].target.Some? :: gone < q.log[j].target.value
  {
    InvInEveryRun(ttl, events);
    var s := Run(Initial(ttl), events);
    var q := s.requests[r];
    assert Fits(s.entry, s.targets, q);
    assert Floor(q.log[i]) == q.log[i].target.value + 1;
  }

  /** In every run, every request's attempts are those of the policy: it makes at most four,
      and a request that is over ended as the composed policy ends for such attempts. */
  lemma RequestsFollowPolicy(ttl: nat, events: seq<Event>, r: nat, script: nat -> Ending)
    requires r in Run(Initial(ttl), events).requests
    ensures
      var q := Run(Initial(ttl), events).requests[r];
      var ends := EndsOf(q.log);
      && Follows(ends) && |q.log| <= 4
      && (q.where.Over? && (forall i | 0 <= i < |ends| :: ends[i] == script(i)) ==>
          WithTarget(script) == (|q.log|, q.where.final))
  {
    InvInEveryRun(ttl, events);
    var q := Run(Initial(ttl), events).requests[r];
    assert OnPolicy(q);
    AtMostFour(EndsOf(q.log));
    if q.where.Over? && forall i | 0 <= i < |EndsOf(q.log)| :: EndsOf(q.log)[i] == script(i) {
      MachineIsPolicy(script, EndsOf(q.log));
    }
  }

  // ---------- what clients are told, in every run ----------

  function Attempts(log: seq<Item>): (attempts: seq<Attempt>)
    ensures |attempts| == |log|
  {
    if log == [] then [] else Attempts(log[..|log| - 1]) + [log[|log| - 1].attempt]
  }

  lemma {:induction false} AttemptsAt(log: seq<Item>, k: nat)
    requires k < |log|
    ensures Attempts(log)[k] == log[k].attempt
    decreases |log|
  {
    if k < |log| - 1 { AttemptsAt(log[..|log| - 1], k); }
  }

  lemma {:induction false} EndsOfAttempts(log: seq<Item>)
    ensures EndsOf(log) == Ends(Attempts(log))
  {
    if log != [] {
      var before, last := log[..|log| - 1], log[|log| - 1];
      EndsOfAttempts(before);
      assert Attempts(log)[..|log| - 1] == Attempts(before);
    }
  }

  /** In every run, a request that is over told its client that the request is bad exactly when
      the last of its attempts made a call that was found invalid, for another reason than the
      store being gone, or failed in a lookup that was. */
  lemma BadRequestInEveryRun(ttl: nat, events: seq<Event>, r: nat)
    requires r in Run(Initial(ttl), events).requests && Run(Initial(ttl), events).requests[r].where.Over?
    ensures
      var q := Run(Initial(ttl), events).requests[r];
      q.log != [] && (q.where.final == Refused(BadRequest) <==> Blames(q.log[|q.log| - 1].attempt))
  {
    InvInEveryRun(ttl, events);
    var q := Run(Initial(ttl), events).requests[r];
    assert OnPolicy(q);
    EndsOfAttempts(q.log);
    BadRequestIff(Attempts(q.log));
    AttemptsAt(q.log, |q.log| - 1);
  }

  /** In every run, an attempt that timed out, in its call or in its lookup, is the last of its
      request, which is over with an upstream error unless its client has left. */
  lemma TimeoutInEveryRun(ttl: nat, events: seq<Event>, r: nat, k: nat)
    requires r in Run(Initial(ttl), events).requests
    requires k < |Run(Initial(ttl), events).requests[r].log|
    requires TimesOut(Run(Initial(ttl), events).requests[r].log[k].attempt)
    ensures
      var q := Run(Initial(ttl), events).requests[r];
      k == |q.log| - 1 && (q.where.Left? || q.where == Over(Refused(UpstreamError)))
  {
    InvInEveryRun(ttl, events);
    var q := Run(Initial(ttl), events).requests[r];
    assert OnPolicy(q);
    EndsOfAttempts(q.log);
    AttemptsAt(q.log, k);
    TimeoutIsLast(Attempts(q.log), k);
  }

  // ---------- what each step does to the requests ----------

  /** What a lookup finds is held for the time to live, and all who wait for it use it. */
  lemma FoundIsShared(s: State, id: nat)
    requires Inv(s) && id in s.running
    ensures
      var t := Step(s, Found(id));
      && t.entry == Held(s.targets, s.now + s.ttl) && t.requests.Keys == s.requests.Keys
      && forall r | r in s.requests ::
           t.requests[r] == if s.requests[r].where.Waiting? then s.requests[r].(where := Calling(s.targets))
                            else s.requests[r]
  {
    OnlyOneIsAwaited(s, id);
  }

  lemma OnlyOneIsAwaited(s: State, id: nat)
    requires Inv(s) && id in s.running
    ensures s.entry == InFlight(id)
    ensures forall r | r in s.requests && s.requests[r].where.Waiting? :: s.requests[r].where == Waiting(id)
  {
    forall r | r in s.requests && s.requests[r].where.Waiting? ensures s.requests[r].where == Waiting(id) {
      assert Fits(s.entry, s.targets, s.requests[r]);
    }
  }

  /** A failed lookup is not kept, and fails the attempt of all who wait for it with its own fault:
      they try again once if that may help, and are told its error otherwise. */
  lemma FailureIsShared(s: State, id: nat, fault: Fault)
    requires Inv(s) && id in s.running
    ensures
      var t := Step(s, NotFound(id, fault));
      && t.entry == Empty && t.requests.Keys == s.requests.Keys
      && forall r | r in s.requests ::
           if s.requests[r].where.Waiting? then
             && t.requests[r].log == s.requests[r].log + [Item(None, NoTarget(fault))]
             && t.requests[r].where == (if fault.retryable && !s.requests[r].phase.retried then Asking
                                        else Over(Refused(fault.error)))
           else t.requests[r] == s.requests[r]
  {
    OnlyOneIsAwaited(s, id);
  }

  /** The answer to a call: a success ends the request; a fault is retried once if that may help;
      and where the store is gone, the entry is dropped if it still holds this target, and the
      request tries again unless it has done so before. */
  lemma AnswerDecides(s: State, r: nat, answer: Answer<Response>)
    requires r in s.requests && s.requests[r].where.Calling?
    ensures
      var q, end := s.requests[r], EndOf(Called(answer));
      var replied := Step(s, Reply(r, answer));
      var t := if end.Gone? then Step(replied, Invalidate(r)) else replied;
      && t.requests == s.requests[r := t.requests[r]]
      && t.requests[r].log == q.log + [Item(Some(q.where.target), Called(answer))]
      && t.requests[r].where ==
           (match end
            case Success => Over(Served)
            case Gone => if q.phase.second then Over(Refused(UpstreamError)) else Asking
            case Stopped(fault) => if fault.retryable && !q.phase.retried then Asking else Over(Refused(fault.error)))
      && t.entry == if end.Gone? && s.entry.Held? && s.entry.target == q.where.target then Empty else s.entry
  {
  }

  // ---------- nobody is stuck ----------

  /** In every run, every request that is not over and has not left can go on: none is left
      waiting for a lookup that is not under way. */
  lemma NobodyIsStuck(ttl: nat, events: seq<Event>, r: nat)
    requires r in Run(Initial(ttl), events).requests
    requires var w := Run(Initial(ttl), events).requests[r].where; !w.Over? && !w.Left?
    ensures
      var s := Run(Initial(ttl), events);
      exists e: Event :: !e.Leave? && r in Step(s, e).requests && Step(s, e).requests[r] != s.requests[r]
  {
    InvInEveryRun(ttl, events);
    var s := Run(Initial(ttl), events);
    var q := s.requests[r];
    assert Fits(s.entry, s.targets, q);
    match q.where
    case Asking => assert Step(s, Ask(r)).requests[r] != q;
    case Waiting(id) => assert Step(s, Found(id)).requests[r].where == Calling(s.targets);
    case Calling(_) => assert Step(s, Reply(r, TimedOut)).requests[r] != q;
    case Reporting(_, _) => assert |Step(s, Invalidate(r)).requests[r].log| == |q.log| + 1;
  }

  // ---------- how long a target is used ----------

  /** While a target is held it expires at the time it was given. */
  ghost predicate Dated(s: State, target: nat, expiry: nat) {
    target < s.targets && (s.entry.Held? && s.entry.target == target ==> s.entry.expiry == expiry)
  }

  lemma {:induction false} StaysDated(s: State, events: seq<Event>, target: nat, expiry: nat)
    requires Dated(s, target, expiry)
    ensures Dated(Run(s, events), target, expiry)
  {
    if events != [] {
      StaysDated(s, events[..|events| - 1], target, expiry);
      StepStaysDated(Run(s, events[..|events| - 1]), events[|events| - 1], target, expiry);
    }
  }

  lemma StepStaysDated(s: State, e: Event, target: nat, expiry: nat)
    requires Dated(s, target, expiry)
    ensures Dated(Step(s, e), target, expiry)
  {
  }

  /** Whatever happens after a target was found, a request that asks the cache is given it if
      and only if it is still held and its time to live, counted from when it was found, is
      not over. */
  lemma UsedForItsTime(s: State, id: nat, events: seq<Event>, r: nat)
    requires Inv(s) && id in s.running
    requires var u := Run(Step(s, Found(id)), events); r in u.requests && u.requests[r].where.Asking?
    ensures
      var u := Run(Step(s, Found(id)), events);
      Step(u, Ask(r)).requests[r].where == Calling(s.targets)
      <==> u.entry.Held? && u.entry.target == s.targets && u.now < s.now + s.ttl
  {
    StaysDated(Step(s, Found(id)), events, s.targets, s.now + s.ttl);
  }
}

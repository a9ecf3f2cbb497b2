/** The single cached target shared by concurrent requests, the lookup they share, and each
    request's way through the retry policy, over every interleaving. The cache itself
    belongs to the runtime the service is built on; its rules here are the ones the
    service's comments rely on. */
module TargetCache {
  import opened Results
  import opened RetryPolicy

  // ---------- state ----------

  /** The cache entry: nothing, a lookup under way, or a target until it expires. Targets and
      lookups are numbered in the order they come about, as each is an object of its own. */
  datatype Entry = Empty | InFlight(id: nat) | Held(target: nat, expiry: nat)

  /** A request is about to ask the cache, waits for a lookup, calls OpenFGA against a target,
      was answered that the target is gone, is over, or went away. */
  datatype Where =
    | Asking
    | Waiting(id: nat)
    | Calling(target: nat)
    | Reporting(target: nat, answer: Answer<Response>)
    | Over(final: Final)
    | Left

  /** An attempt that is behind a request, and the target it was made against if it got one. */
  datatype Item = Item(target: Option<nat>, attempt: Attempt)

  datatype Request = Request(where: Where, phase: Phase, log: seq<Item>)

  datatype State = State(
    entry: Entry, running: set<nat>, lookups: nat, targets: nat, now: nat, ttl: nat, requests: map<nat, Request>
  )

  datatype Event =
    | Arrive(r: nat)
    | Ask(r: nat)
    | Found(id: nat)
    | NotFound(id: nat, fault: Fault)
    | Reply(r: nat, answer: Answer<Response>)
    | Invalidate(r: nat)
    | Tick(ms: nat)
    | Leave(r: nat)

  function Initial(ttl: nat): State { State(Empty, {}, 0, 0, 0, ttl, map[]) }

  // ---------- steps ----------

  const NEW := Request(Asking, START, [])

  /** The attempt is over; the policy says how the request goes on. */
  function Conclude(q: Request, item: Item): Request {
    var log := q.log + [item];
    match Advance(q.phase, EndOf(item.attempt))
    case Going(p) => Request(Asking, p, log)
    case Ended(final) => Request(Over(final), q.phase, log)
  }

  function With(s: State, r: nat, q: Request): State { s.(requests := s.requests[r := q]) }

  /** Cache.get: a target that has not expired is used, a lookup under way is joined, and
      otherwise one is started. */
  function DoAsk(s: State, r: nat): State
    requires r in s.requests
  {
    var q := s.requests[r];
    if s.entry.Held? && s.now < s.entry.expiry then With(s, r, q.(where := Calling(s.entry.target)))
    else if s.entry.InFlight? then With(s, r, q.(where := Waiting(s.entry.id)))
    else
      With(s, r, q.(where := Waiting(s.lookups))).(
        entry := InFlight(s.lookups), running := s.running + {s.lookups}, lookups := s.lookups + 1)
  }

  function Woken(q: Request, id: nat, target: nat): Request {
    if q.where == Waiting(id) then q.(where := Calling(target)) else q
  }

  function Failed(q: Request, id: nat, fault: Fault): Request {
    if q.where == Waiting(id) then Conclude(q, Item(None, NoTarget(fault))) else q
  }

  /** The lookup found a target: it is held for the time to live, and given to all who wait. */
  function DoFound(s: State, id: nat): State {
    s.(entry := if s.entry == InFlight(id) then Held(s.targets, s.now + s.ttl) else s.entry,
       running := s.running - {id}, targets := s.targets + 1,
       requests := map r | r in s.requests :: Woken(s.requests[r], id, s.targets))
  }

  /** The lookup failed: that is not kept, and it fails the attempt of all who wait. */
  function DoNotFound(s: State, id: nat, fault: Fault): State {
    s.(entry := if s.entry == InFlight(id) then Empty else s.entry,
       running := s.running - {id},
       requests := map r | r in s.requests :: Failed(s.requests[r], id, fault))
  }

  function DoReply(s: State, r: nat, answer: Answer<Response>): State
    requires r in s.requests && s.requests[r].where.Calling?
  {
    var q, end := s.requests[r], EndOf(Called(answer));
    if end.Gone? then With(s, r, q.(where := Reporting(q.where.target, answer)))
    else With(s, r, Conclude(q, Item(Some(q.where.target), Called(answer))))
  }

  /** Cache.invalidateWhen: the entry is dropped if it still holds the very target. */
  function DoInvalidate(s: State, r: nat): State
    requires r in s.requests && s.requests[r].where.Reporting?
  {
    var q := s.requests[r];
    var drop := s.entry.Held? && s.entry.target == q.where.target;
    var t := With(s, r, Conclude(q, Item(Some(q.where.target), Called(q.where.answer))));
    t.(entry := if drop then Empty else s.entry)
  }

  ghost predicate Awaited(requests: map<nat, Request>, id: nat) {
    exists r :: r in requests && requests[r].where == Waiting(id)
  }

  /** The client goes away; a lookup nobody waits for any more is cancelled. */
  ghost function DoLeave(s: State, r: nat): State
    requires r in s.requests
  {
    var q := s.requests[r];
    var t := With(s, r, q.(where := Left));
    if q.where.Waiting? && !Awaited(t.requests, q.where.id) then
      t.(running := s.running - {q.where.id}, entry := if s.entry == InFlight(q.where.id) then Empty else s.entry)
    else t
  }

  /** What an event changes; an event that cannot happen changes nothing. */
  ghost function Step(s: State, e: Event): State {
    match e
    case Arrive(r) => if r in s.requests then s else With(s, r, NEW)
    case Ask(r) => if r in s.requests && s.requests[r].where.Asking? then DoAsk(s, r) else s
    case Found(id) => if id in s.running then DoFound(s, id) else s
    case NotFound(id, fault) => if id in s.running then DoNotFound(s, id, fault) else s
    case Reply(r, answer) => if r in s.requests && s.requests[r].where.Calling? then DoReply(s, r, answer) else s
    case Invalidate(r) => if r in s.requests && s.requests[r].where.Reporting? then DoInvalidate(s, r) else s
    case Tick(ms) => s.(now := s.now + ms)
    case Leave(r) => if r in s.requests && !s.requests[r].where.Over? then DoLeave(s, r) else s
  }

  ghost function Run(s: State, events: seq<Event>): State {
    if events == [] then s else Step(Run(s, events[..|events| - 1]), events[|events| - 1])
  }

  // ---------- what every interleaving keeps ----------

  function EndsOf(log: seq<Item>): (ends: seq<Ending>)
    ensures |ends| == |log|
  {
    if log == [] then [] else EndsOf(log[..|log| - 1]) + [EndOf(log[|log| - 1].attempt)]
  }

  /** The oldest target a request may still meet after an attempt: the one it used, or a newer
      one if that was gone. */
  function Floor(item: Item): nat {
    match item.target
    case None => 0
    case Some(t) => if EndOf(item.attempt).Gone? then t + 1 else t
  }

  /** A request meets targets in the order they were found, and none again that it saw gone. */
  ghost predicate Climbs(log: seq<Item>) {
    forall i, j | 0 <= i < j < |log| && log[j].target.Some? :: Floor(log[i]) <= log[j].target.value
  }

  ghost predicate Below(log: seq<Item>, target: nat) {
    forall i | 0 <= i < |log| :: Floor(log[i]) <= target
  }

  /** The target a request is using. */
  function Using(w: Where): Option<nat> {
    match w
    case Calling(t) => Some(t)
    case Reporting(t, _) => Some(t)
    case _ => None
  }

  ghost predicate OnPolicy(q: Request) {
    && Follows(EndsOf(q.log))
    && (!q.where.Left? ==> Replay(EndsOf(q.log)) == if q.where.Over? then Ended(q.where.final) else Going(q.phase))
  }

  ghost predicate Fits(entry: Entry, targets: nat, q: Request) {
    && (q.where.Waiting? ==> entry == InFlight(q.where.id))
    && Climbs(q.log) && Below(q.log, targets)
    && (entry.Held? ==> Below(q.log, entry.target))
    && (Using(q.where).Some? ==> Using(q.where).value < targets && Below(q.log, Using(q.where).value))
  }

  /** The lookup under way is the one of the entry, someone waits for it, and what is held is
      the target found last. */
  ghost predicate Cache(s: State) {
    && s.running == (if s.entry.InFlight? then {s.entry.id} else {})
    && (s.entry.InFlight? ==> Awaited(s.requests, s.entry.id))
    && (s.entry.Held? ==> s.entry.target + 1 == s.targets)
  }

  ghost predicate Inv(s: State) {
    Cache(s) && forall r | r in s.requests :: Fits(s.entry, s.targets, s.requests[r]) && OnPolicy(s.requests[r])
  }

  lemma ConcludeOnPolicy(q: Request, item: Item)
    requires OnPolicy(q) && !q.where.Over? && !q.where.Left?
    ensures OnPolicy(Conclude(q, item))
  {
    var log := q.log + [item];
    assert log[..|log| - 1] == q.log;
    var ends := EndsOf(log);
    assert ends[..|ends| - 1] == EndsOf(q.log) && ends[|ends| - 1] == EndOf(item.attempt);
  }

  lemma ConcludeFits(entry: Entry, targets: nat, q: Request, item: Item)
    requires Climbs(q.log) && Below(q.log, targets) && Floor(item) <= targets
    requires entry.Held? ==> Below(q.log, entry.target) && Floor(item) <= entry.target
    requires item.target.Some? ==> Below(q.log, item.target.value)
    ensures Fits(entry, targets, Conclude(q, item))
  {
    var log := q.log + [item];
    assert Climbs(log) by {
      forall i, j | 0 <= i < j < |log| && log[j].target.Some? ensures Floor(log[i]) <= log[j].target.value {
        assert log[i] == q.log[i];
      }
    }
  }

  lemma AskKeepsInv(s: State, r: nat)
    requires Inv(s) && r in s.requests && s.requests[r].where.Asking?
    ensures Inv(DoAsk(s, r))
  {
    var t := DoAsk(s, r);
    assert t.requests[r].log == s.requests[r].log;
    assert t.entry.InFlight? ==> Awaited(t.requests, t.entry.id) by {
      assert t.entry.InFlight? ==> t.requests[r].where == Waiting(t.entry.id);
    }
  }

  lemma FoundKeepsInv(s: State, id: nat)
    requires Inv(s) && id in s.running
    ensures Inv(DoFound(s, id))
  {
    var t := DoFound(s, id);
    assert s.entry == InFlight(id);
    forall r | r in t.requests ensures Fits(t.entry, t.targets, t.requests[r]) && OnPolicy(t.requests[r]) {
      assert Fits(s.entry, s.targets, s.requests[r]) && OnPolicy(s.requests[r]);
    }
  }

  lemma NotFoundKeepsInv(s: State, id: nat, fault: Fault)
    requires Inv(s) && id in s.running
    ensures Inv(DoNotFound(s, id, fault))
  {
    var t := DoNotFound(s, id, fault);
    assert s.entry == InFlight(id);
    forall r | r in t.requests ensures Fits(t.entry, t.targets, t.requests[r]) && OnPolicy(t.requests[r]) {
      var q := s.requests[r];
      assert Fits(s.entry, s.targets, q) && OnPolicy(q);
      if q.where == Waiting(id) {
        ConcludeFits(Empty, s.targets, q, Item(None, NoTarget(fault)));
        ConcludeOnPolicy(q, Item(None, NoTarget(fault)));
      }
    }
  }

  lemma OthersWait(s: State, r: nat, q: Request)
    requires Cache(s) && r in s.requests && !s.requests[r].where.Waiting?
    ensures Cache(With(s, r, q))
  {
    if s.entry.InFlight? {
      var w :| w in s.requests && s.requests[w].where == Waiting(s.entry.id);
      assert With(s, r, q).requests[w].where == Waiting(s.entry.id);
    }
  }

  /** One request moves on, and may drop what is held. */
  lemma MoveKeepsInv(s: State, r: nat, q: Request, entry: Entry)
    requires Inv(s) && r in s.requests && !s.requests[r].where.Waiting?
    requires entry == s.entry || (entry == Empty && s.entry.Held?)
    requires Fits(entry, s.targets, q) && OnPolicy(q)
    ensures Inv(With(s, r, q).(entry := entry))
  {
    OthersWait(s, r, q);
    var t := With(s, r, q).(entry := entry);
    forall w | w in t.requests ensures Fits(t.entry, t.targets, t.requests[w]) && OnPolicy(t.requests[w]) {
      if w != r { assert Fits(s.entry, s.targets, s.requests[w]) && OnPolicy(s.requests[w]); }
    }
  }

  lemma ReplyKeepsInv(s: State, r: nat, answer: Answer<Response>)
    requires Inv(s) && r in s.requests && s.requests[r].where.Calling?
    ensures Inv(DoReply(s, r, answer))
  {
    var q, end := s.requests[r], EndOf(Called(answer));
    var item := Item(Some(q.where.target), Called(answer));
    assert Fits(s.entry, s.targets, q) && OnPolicy(q);
    if end.Gone? {
      MoveKeepsInv(s, r, q.(where := Reporting(q.where.target, answer)), s.entry);
    } else {
      UsedFloor(s, q, item);
      ConcludeFits(s.entry, s.targets, q, item);
      ConcludeOnPolicy(q, item);
      MoveKeepsInv(s, r, Conclude(q, item), s.entry);
    }
  }

  /** What is held is no older than what a request uses. */
  lemma UsedFloor(s: State, q: Request, item: Item)
    requires Cache(s) && Fits(s.entry, s.targets, q) && Using(q.where).Some? && item.target == Using(q.where)
    ensures Floor(item) <= s.targets
    ensures s.entry.Held? && (s.entry.target != item.target.value || !EndOf(item.attempt).Gone?) ==>
        Floor(item) <= s.entry.target
  {
  }

  lemma InvalidateKeepsInv(s: State, r: nat)
    requires Inv(s) && r in s.requests && s.requests[r].where.Reporting?
    ensures Inv(DoInvalidate(s, r))
  {
    var q, t := s.requests[r], DoInvalidate(s, r);
    var item := Item(Some(q.where.target), Called(q.where.answer));
    assert Fits(s.entry, s.targets, q) && OnPolicy(q);
    UsedFloor(s, q, item);
    ConcludeFits(t.entry, s.targets, q, item);
    ConcludeOnPolicy(q, item);
    MoveKeepsInv(s, r, Conclude(q, item), t.entry);
  }

  lemma LeaveKeepsInv(s: State, r: nat)
    requires Inv(s) && r in s.requests && !s.requests[r].where.Over?
    ensures Inv(DoLeave(s, r))
  {
    var q, t := s.requests[r], DoLeave(s, r);
    var left := With(s, r, q.(where := Left));
    assert Fits(s.entry, s.targets, q) && OnPolicy(q);
    if q.where.Waiting? {
      assert s.entry == InFlight(q.where.id);
      forall w | w in t.requests && w != r ensures Fits(t.entry, t.targets, t.requests[w]) {
        assert left.requests[w] == s.requests[w];
        if !Awaited(left.requests, q.where.id) { assert left.requests[w].where != Waiting(q.where.id); }
      }
    } else {
      OthersWait(s, r, q.(where := Left));
    }
  }

  lemma ArriveKeepsInv(s: State, r: nat)
    requires Inv(s) && r !in s.requests
    ensures Inv(With(s, r, NEW))
  {
    var t := With(s, r, NEW);
    if s.entry.InFlight? {
      var w :| w in s.requests && s.requests[w].where == Waiting(s.entry.id);
      assert t.requests[w].where == Waiting(s.entry.id);
    }
  }

  lemma StepKeepsInv(s: State, e: Event)
    requires Inv(s)
    ensures Inv(Step(s, e))
  {
    match e
    case Arrive(r) => if r !in s.requests { ArriveKeepsInv(s, r); }
    case Ask(r) => if r in s.requests && s.requests[r].where.Asking? { AskKeepsInv(s, r); }
    case Found(id) => if id in s.running { FoundKeepsInv(s, id); }
    case NotFound(id, fault) => if id in s.running { NotFoundKeepsInv(s, id, fault); }
    case Reply(r, answer) => if r in s.requests && s.requests[r].where.Calling? { ReplyKeepsInv(s, r, answer); }
    case Invalidate(r) => if r in s.requests && s.requests[r].where.Reporting? { InvalidateKeepsInv(s, r); }
    case Tick(_) =>
    case Leave(r) => if r in s.requests && !s.requests[r].where.Over? { LeaveKeepsInv(s, r); }
  }

  lemma {:induction false} InvInEveryRun(ttl: nat, events: seq<Event>)
    ensures Inv(Run(Initial(ttl), events))
  {
    if events != [] {
      InvInEveryRun(ttl, events[..|events| - 1]);
      StepKeepsInv(Run(Initial(ttl), events[..|events| - 1]), events[|events| - 1]);
    }
  }
}

/** The ramp-up dispatcher with its workers, semaphore, wait group and context, over every
    interleaving of ticks, workers and cancellation. */
module Dispatcher {
  import opened RampSchedule
  import opened Sequences

  const MAX_INT32 := 0x7fff_ffff

  /** int32(n) for a length n. */
  function ToInt32(n: nat): int {
    var low := n % 0x1_0000_0000;
    if low <= MAX_INT32 then low else low - 0x1_0000_0000
  }

  /** What the dispatcher is called with; a request may be a nil function, and the context may
      have a deadline. */
  datatype Job = Job(
    minRps: int, maxRps: int, period: int, maxInFlight: nat, present: seq<bool>, deadline: bool
  )

  /** A worker that was started, runs its request, is done with it, gave its slot back, and
      left the wait group. */
  datatype Worker = Started | Running | Ran | Freed | Gone

  datatype Result = Nil | Error

  /** Where the dispatching goroutine is: waiting for the ticker or the context, for the
      limiter, about to pick the i-th request of a tick, blocked on the semaphore with it,
      waiting for the workers, or back. */
  datatype Pc =
    | Selecting
    | Limiting
    | Picking(i: nat)
    | Sending(i: nat)
    | Draining(result: Result)
    | Returned(result: Result)

  /** The k-th worker runs the k-th request. `begun` lists the requests whose function was
      called, in that order; `slots` is what the semaphore holds. */
  datatype State = State(pc: Pc, tick: nat, workers: seq<Worker>, slots: nat, begun: seq<nat>, cancelled: bool)

  datatype Event =
    | Tick | Done | WaitOk | WaitFailed | Pick | Send | Drained
    | Begin(k: nat) | End(k: nat) | Free(k: nat) | Leave(k: nat)
    | Cancel

  const INITIAL := State(Selecting, 0, [], 0, [], false)

  function QuotaOf(job: Job, n: nat): nat { Quota(job.minRps, job.maxRps, job.period, n) }

  function DispatchedBy(job: Job, n: nat): nat { Dispatched(job.minRps, job.maxRps, job.period, n) }

  // ---------- steps ----------

  function LimitOf(job: Job, n: nat): real { Limit(job.minRps, job.maxRps, job.period, n) }

  /** The limiter may let the dispatcher pass in the n-th tick: it starts with one token, and
      gets another only while its rate is positive, in this tick or since the last wait. With
      a period of 0 its rate was not a number in between, and it may let anything pass. */
  predicate MayPass(job: Job, n: nat) {
    n == 0 || LimitOf(job, n) > 0.0 || LimitOf(job, n - 1) > 0.0 || job.period == 0
  }

  /** The i-th turn of the inner loop: leave it, find that there is no request left, or go for
      a slot. The request index has been raised once for each worker. */
  function DoPick(job: Job, s: State): State
    requires s.pc.Picking?
  {
    if s.pc.i >= QuotaOf(job, s.tick) then s.(pc := Selecting, tick := s.tick + 1)
    else if |s.workers| >= ToInt32(|job.present|) then s.(pc := Draining(Nil))
    else s.(pc := Sending(s.pc.i))
  }

  predicate Is(s: State, k: nat, w: Worker) { k < |s.workers| && s.workers[k] == w }

  function Move(s: State, k: nat, w: Worker): State
    requires k < |s.workers|
  {
    s.(workers := s.workers[k := w])
  }

  /** What an event changes; an event that cannot happen changes nothing. */
  function Step(job: Job, s: State, e: Event): State {
    match e
    case Tick => if s.pc.Selecting? then s.(pc := Limiting) else s
    case Done => if s.pc.Selecting? && s.cancelled then s.(pc := Draining(Error)) else s
    case WaitOk => if s.pc.Limiting? && MayPass(job, s.tick) then s.(pc := Picking(0)) else s
    case WaitFailed => if s.pc.Limiting? && (s.cancelled || job.deadline) then s.(pc := Draining(Error)) else s
    case Pick => if s.pc.Picking? then DoPick(job, s) else s
    case Send =>
      if s.pc.Sending? && s.slots < job.maxInFlight then
        s.(pc := Picking(s.pc.i + 1), workers := s.workers + [Started], slots := s.slots + 1)
      else s
    case Drained => if s.pc.Draining? && AllGone(s.workers) then s.(pc := Returned(s.pc.result)) else s
    case Begin(k) =>
      if Is(s, k, Started) then
        if k < |job.present| && job.present[k] then Move(s, k, Running).(begun := s.begun + [k]) else Move(s, k, Ran)
      else s
    case End(k) => if Is(s, k, Running) then Move(s, k, Ran) else s
    case Free(k) => if Is(s, k, Ran) && s.slots > 0 then Move(s, k, Freed).(slots := s.slots - 1) else s
    case Leave(k) => if Is(s, k, Freed) then Move(s, k, Gone) else s
    case Cancel => s.(cancelled := true)
  }

  function RunFrom(job: Job, s: State, events: seq<Event>): State {
    if events == [] then s else Step(job, RunFrom(job, s, events[..|events| - 1]), events[|events| - 1])
  }

  function Run(job: Job, events: seq<Event>): State { RunFrom(job, INITIAL, events) }

  // ---------- counting workers ----------

  predicate AllGone(workers: seq<Worker>) { forall k | 0 <= k < |workers| :: workers[k].Gone? }

  predicate HoldsSlot(w: Worker) { w.Started? || w.Running? || w.Ran? }

  function Slots(workers: seq<Worker>): nat {
    if workers == [] then 0
    else Slots(workers[..|workers| - 1]) + (if HoldsSlot(workers[|workers| - 1]) then 1 else 0)
  }

  function InFlight(workers: seq<Worker>): nat {
    if workers == [] then 0
    else InFlight(workers[..|workers| - 1]) + (if workers[|workers| - 1].Running? then 1 else 0)
  }

  lemma {:induction false} InFlightHolds(workers: seq<Worker>)
    ensures InFlight(workers) <= Slots(workers)
  {
    if workers != [] { InFlightHolds(workers[..|workers| - 1]); }
  }

  lemma {:induction false} SlotsMove(workers: seq<Worker>, k: nat, w: Worker)
    requires k < |workers|
    ensures Slots(workers[k := w])
              == Slots(workers) - (if HoldsSlot(workers[k]) then 1 else 0) + (if HoldsSlot(w) then 1 else 0)
    decreases |workers|
  {
    var n := |workers| - 1;
    if k == n {
      assert workers[k := w][..n] == workers[..n];
    } else {
      SlotsMove(workers[..n], k, w);
      assert workers[k := w][..n] == workers[..n][k := w];
    }
  }

  lemma SlotsStart(workers: seq<Worker>)
    ensures Slots(workers + [Started]) == Slots(workers) + 1
  {
    assert (workers + [Started])[..|workers|] == workers;
  }

  // ---------- what every interleaving keeps ----------

  /** How many requests the dispatcher knows of. */
  function Known(job: Job): nat {
    var n := ToInt32(|job.present|);
    if n < 0 then 0 else n
  }

  /** The dispatcher is where the schedule says it is. */
  ghost predicate OnSchedule(job: Job, s: State) {
    var before, n := DispatchedBy(job, s.tick), |s.workers|;
    && n <= Known(job)
    && match s.pc
       case Selecting => n == before
       case Limiting => n == before
       case Picking(i) => n == before + i && i <= QuotaOf(job, s.tick)
       case Sending(i) => n == before + i && i < QuotaOf(job, s.tick) && n < Known(job)
       case Draining(result) => result.Nil? ==> AtEnd(job, s)
       case Returned(result) => result.Nil? ==> AtEnd(job, s)
  }

  /** Every request the dispatcher knows of has its worker, and this is the tick in which the
      schedule runs out of requests. */
  ghost predicate AtEnd(job: Job, s: State) {
    |s.workers| == Known(job) && DispatchedBy(job, s.tick) <= Known(job) < DispatchedBy(job, s.tick + 1)
  }

  /** The calls made so far are those of the present requests whose worker has begun, once
      each. */
  ghost predicate Ledger(job: Job, s: State) {
    && (forall k: nat ::
          k in s.begun <==> k < |s.workers| && k < |job.present| && job.present[k] && !s.workers[k].Started?)
    && (forall i, j | 0 <= i < j < |s.begun| :: s.begun[i] != s.begun[j])
    && (forall k | 0 <= k < |s.workers| && s.workers[k].Running? :: k in s.begun)
  }

  ghost predicate Inv(job: Job, s: State) {
    && s.slots == Slots(s.workers) <= job.maxInFlight
    && OnSchedule(job, s) && Ledger(job, s)
    && (s.pc.Returned? ==> AllGone(s.workers))
  }

  lemma PickKeepsInv(job: Job, s: State)
    requires Inv(job, s) && s.pc.Picking?
    ensures Inv(job, DoPick(job, s))
  {
  }

  lemma SendKeepsInv(job: Job, s: State)
    requires Inv(job, s)
    ensures Inv(job, Step(job, s, Send))
  {
    if s.pc.Sending? && s.slots < job.maxInFlight {
      SlotsStart(s.workers);
      SendKeepsSchedule(job, s);
      SendKeepsLedger(job, s);
    }
  }

  lemma SendKeepsSchedule(job: Job, s: State)
    requires OnSchedule(job, s) && s.pc.Sending? && s.slots < job.maxInFlight
    ensures OnSchedule(job, Step(job, s, Send))
  {
  }

  lemma SendKeepsLedger(job: Job, s: State)
    requires Ledger(job, s) && s.pc.Sending? && s.slots < job.maxInFlight
    ensures Ledger(job, Step(job, s, Send))
  {
    var t := Step(job, s, Send);
    forall k: nat
      ensures k in t.begun <==> k < |t.workers| && k < |job.present| && job.present[k] && !t.workers[k].Started?
    {
      if k < |s.workers| { assert t.workers[k] == s.workers[k]; }
    }
  }

  lemma BeginKeepsLedger(job: Job, s: State, k: nat)
    requires Ledger(job, s) && Is(s, k, Started)
    ensures Ledger(job, Step(job, s, Begin(k)))
  {
    assert k !in s.begun;
    var t := Step(job, s, Begin(k));
    assert forall j | 0 <= j < |s.workers| && j != k :: t.workers[j] == s.workers[j];
    if t.begun != s.begun {
      assert t.begun[|s.begun|] == k;
      assert forall j: nat :: j in t.begun <==> j in s.begun || j == k;
    }
  }

  lemma MoveKeepsLedger(job: Job, s: State, k: nat, w: Worker)
    requires Ledger(job, s) && k < |s.workers| && !s.workers[k].Started? && !w.Started? && !w.Running?
    ensures Ledger(job, Move(s, k, w))
  {
  }

  lemma EndKeepsInv(job: Job, s: State, k: nat)
    requires Inv(job, s)
    ensures Inv(job, Step(job, s, End(k)))
  {
    if Is(s, k, Running) {
      SlotsMove(s.workers, k, Ran);
      MoveKeepsLedger(job, s, k, Ran);
    }
  }

  lemma FreeKeepsInv(job: Job, s: State, k: nat)
    requires Inv(job, s)
    ensures Inv(job, Step(job, s, Free(k)))
  {
    if Is(s, k, Ran) {
      SlotsMove(s.workers, k, Freed);
      MoveKeepsLedger(job, s, k, Freed);
    }
  }

  lemma LeaveKeepsInv(job: Job, s: State, k: nat)
    requires Inv(job, s)
    ensures Inv(job, Step(job, s, Leave(k)))
  {
    if Is(s, k, Freed) {
      SlotsMove(s.workers, k, Gone);
      MoveKeepsLedger(job, s, k, Gone);
    }
  }

  lemma BeginKeepsInv(job: Job, s: State, k: nat)
    requires Inv(job, s)
    ensures Inv(job, Step(job, s, Begin(k)))
  {
    if Is(s, k, Started) {
      SlotsMove(s.workers, k, if k < |job.present| && job.present[k] then Running else Ran);
      BeginKeepsLedger(job, s, k);
    }
  }

  lemma StepKeepsInv(job: Job, s: State, e: Event)
    requires Inv(job, s)
    ensures Inv(job, Step(job, s, e))
  {
    match e
    case Pick => if s.pc.Picking? { PickKeepsInv(job, s); }
    case Send => SendKeepsInv(job, s);
    case Begin(k) => BeginKeepsInv(job, s, k);
    case End(k) => EndKeepsInv(job, s, k);
    case Free(k) => FreeKeepsInv(job, s, k);
    case Leave(k) => LeaveKeepsInv(job, s, k);
    case _ =>
  }

  lemma {:induction false} InvInEveryRun(job: Job, events: seq<Event>)
    ensures Inv(job, Run(job, events))
  {
    if events != [] {
      InvInEveryRun(job, events[..|events| - 1]);
      StepKeepsInv(job, Run(job, events[..|events| - 1]), events[|events| - 1]);
    }
  }

  // ---------- what that means ----------

  /** In every run no request is started twice, only requests that exist are, at most
      maxInFlight run at once, and none runs once the dispatcher is back. */
  lemma RunsAreSafe(job: Job, events: seq<Event>)
    ensures
      var s := Run(job, events);
      && (forall i, j | 0 <= i < j < |s.begun| :: s.begun[i] != s.begun[j])
      && (forall k | k in s.begun :: k < |job.present| && job.present[k])
      && InFlight(s.workers) <= job.maxInFlight
      && (s.pc.Returned? ==> InFlight(s.workers) == 0 && s.slots == 0)
  {
    InvInEveryRun(job, events);
    var s := Run(job, events);
    InFlightHolds(s.workers);
    if s.pc.Returned? { GoneHoldNothing(s.workers); }
  }

  lemma {:induction false} GoneHoldNothing(workers: seq<Worker>)
    requires AllGone(workers)
    ensures Slots(workers) == 0
  {
    if workers != [] { GoneHoldNothing(workers[..|workers| - 1]); }
  }

  lemma LengthKept(n: nat)
    ensures n <= MAX_INT32 ==> ToInt32(n) == n
    ensures n > MAX_INT32 ==> ToInt32(n) < n
  {
  }

  /** When the dispatcher returns nil, every present request among those it knows of was
      called (and, by RunsAreSafe, once). */
  lemma NilMeansKnownCalled(job: Job, events: seq<Event>, k: nat)
    requires Run(job, events).pc == Returned(Nil) && k < |job.present| && job.present[k]
    ensures k in Run(job, events).begun <==> k < Known(job)
  {
    InvInEveryRun(job, events);
  }

  /** That is every request if and only if there are no more of them than an int32 can count:
      with more, a nil return has left requests out. */
  lemma NilMeansAllCalledIff(job: Job, events: seq<Event>)
    requires Run(job, events).pc == Returned(Nil) && forall k | 0 <= k < |job.present| :: job.present[k]
    ensures (forall k: nat | k < |job.present| :: k in Run(job, events).begun) <==> |job.present| <= MAX_INT32
  {
    LengthKept(|job.present|);
    forall k: nat | k < |job.present| ensures k in Run(job, events).begun <==> k < Known(job) {
      NilMeansKnownCalled(job, events, k);
    }
    if |job.present| > MAX_INT32 {
      var last: nat := |job.present| - 1;
      assert last >= Known(job);
      assert last !in Run(job, events).begun;
    }
  }

  /** Such a return does happen: with one request more than an int32 can count the length wraps
      around to a negative number, and the dispatcher returns nil in its first tick without
      having called anything. */
  lemma TooManyCallsNone(job: Job) returns (events: seq<Event>)
    requires |job.present| == MAX_INT32 + 1 && job.minRps >= 1 && job.period >= 0
    ensures Run(job, events).pc == Returned(Nil) && Run(job, events).begun == []
  {
    events := [Tick, WaitOk, Pick, Drained];
    assert events[..3][..2] == events[..2] && events[..2][..1] == events[..1] && events[..1][..0] == [];
    assert RunFrom(job, INITIAL, events[..1]) == Step(job, INITIAL, Tick) == INITIAL.(pc := Limiting);
    assert Run(job, events[..2]) == INITIAL.(pc := Picking(0));
    assert Run(job, events[..3]) == INITIAL.(pc := Draining(Nil));
  }

  /** In every run that has not returned, fewer ticks are past than the schedule needs: with a
      minimum rate of at least 1 the dispatcher never sees more than one tick for each
      minRps requests, and one more. A nil return comes in the very tick in which the loops
      without workers and cancellation end. */
  lemma TicksInEveryRun(job: Job, events: seq<Event>)
    requires 1 <= job.minRps <= job.maxRps && job.period >= 0
    ensures
      var s := Run(job, events);
      && (!s.pc.Draining? && !s.pc.Returned? ==> s.tick <= Known(job) / job.minRps)
      && (s.pc == Returned(Nil) ==> DispatchedBy(job, s.tick) <= Known(job) < DispatchedBy(job, s.tick + 1))
  {
    InvInEveryRun(job, events);
    var s := Run(job, events);
    if !s.pc.Draining? && !s.pc.Returned? {
      TicksBounded(job.minRps, job.maxRps, job.period, Known(job), s.tick);
    }
  }

  /** The requests in the order in which their calls came to an end. */
  function Finished(job: Job, events: seq<Event>): seq<nat> {
    if events == [] then []
    else
      var before, e := events[..|events| - 1], events[|events| - 1];
      Finished(job, before) + (if e.End? && Is(Run(job, before), e.k, Running) then [e.k] else [])
  }

  /** A call that was made and is not under way has ended, once. */
  ghost predicate Accounted(s: State, finished: seq<nat>) {
    Distinct(finished) && forall k: nat :: k in finished <==> k in s.begun && !Is(s, k, Running)
  }

  lemma StepAccounts(job: Job, s: State, e: Event, finished: seq<nat>)
    requires Inv(job, s) && Accounted(s, finished)
    ensures Accounted(Step(job, s, e), finished + (if e.End? && Is(s, e.k, Running) then [e.k] else []))
  {
    if e.End? && Is(s, e.k, Running) {
      DistinctAppend(finished, [e.k]);
    } else {
      assert finished + [] == finished;
    }
  }

  lemma {:induction false} FinishedInEveryRun(job: Job, events: seq<Event>)
    ensures Accounted(Run(job, events), Finished(job, events))
  {
    if events != [] {
      var before := events[..|events| - 1];
      InvInEveryRun(job, before);
      FinishedInEveryRun(job, before);
      StepAccounts(job, Run(job, before), events[|events| - 1], Finished(job, before));
    }
  }

  // ---------- no deadlock, and an end ----------

  /** The rates let the dispatcher finish: the maximum is positive, and so is the minimum
      unless there is no ramp. */
  predicate Paced(job: Job) {
    job.maxRps >= 1 && (job.minRps >= 1 || job.period <= 0)
  }

  lemma PacedPasses(job: Job, n: nat)
    requires job.minRps <= job.maxRps && Paced(job)
    ensures MayPass(job, n)
  {
    RateClimbs(job.minRps, job.maxRps, job.period, n);
  }

  /** Some event other than a cancellation changes the state. */
  ghost predicate CanMove(job: Job, s: State) {
    exists e: Event :: !e.Cancel? && Step(job, s, e) != s
  }

  lemma {:induction false} HolderExists(workers: seq<Worker>) returns (k: nat)
    requires Slots(workers) > 0
    ensures k < |workers| && HoldsSlot(workers[k])
  {
    if HoldsSlot(workers[|workers| - 1]) {
      k := |workers| - 1;
    } else {
      k := HolderExists(workers[..|workers| - 1]);
    }
  }

  /** The event that moves a worker on. */
  function WorkerEvent(w: Worker, k: nat): Event {
    match w
    case Started => Begin(k)
    case Running => End(k)
    case Ran => Free(k)
    case _ => Leave(k)
  }

  lemma WorkerMoves(job: Job, s: State, k: nat)
    requires Inv(job, s) && k < |s.workers| && !s.workers[k].Gone?
    ensures Step(job, s, WorkerEvent(s.workers[k], k)) != s
  {
    var w := s.workers[k];
    if w.Ran? { SlotsMove(s.workers, k, Freed); }
    assert Step(job, s, WorkerEvent(w, k)).workers[k] != w;
  }

  /** What can happen next: the dispatcher goes on, or a worker it waits for does. */
  lemma NextEvent(job: Job, s: State) returns (e: Event)
    requires Inv(job, s) && job.maxInFlight >= 1 && !s.pc.Returned?
    requires s.pc.Limiting? ==> MayPass(job, s.tick)
    ensures !e.Cancel? && Step(job, s, e) != s && !e.WaitFailed? && !e.Done?
  {
    match s.pc
    case Selecting => e := Tick;
    case Limiting => e := WaitOk;
    case Picking(i) => e := Pick;
    case Sending(i) =>
      if s.slots < job.maxInFlight {
        e := Send;
      } else {
        var k := HolderExists(s.workers);
        WorkerMoves(job, s, k);
        e := WorkerEvent(s.workers[k], k);
      }
    case Draining(_) =>
      if AllGone(s.workers) {
        e := Drained;
      } else {
        var k :| 0 <= k < |s.workers| && !s.workers[k].Gone?;
        WorkerMoves(job, s, k);
        e := WorkerEvent(s.workers[k], k);
      }
  }

  /** With such rates and room for at least one request, the dispatcher can go on in every run
      until it is back: the limiter will let it pass, a full semaphore has a worker that can
      still free its slot, and the wait group one that can still leave it. */
  lemma NeverStuck(job: Job, events: seq<Event>)
    requires job.minRps <= job.maxRps && Paced(job) && job.maxInFlight >= 1
    requires !Run(job, events).pc.Returned?
    ensures CanMove(job, Run(job, events))
  {
    InvInEveryRun(job, events);
    PacedPasses(job, Run(job, events).tick);
    var e := NextEvent(job, Run(job, events));
  }

  /** Without room for any, the first request it has to send stops the dispatcher for good. */
  lemma NoRoomIsStuck(job: Job, events: seq<Event>)
    requires job.maxInFlight == 0 && Run(job, events).pc.Sending?
    ensures !CanMove(job, Run(job, events))
  {
    InvInEveryRun(job, events);
    var s := Run(job, events);
    NoWorkers(job, events);
    forall e: Event | !e.Cancel? ensures Step(job, s, e) == s {}
  }

  lemma {:induction false} NoWorkers(job: Job, events: seq<Event>)
    requires job.maxInFlight == 0
    ensures Run(job, events).workers == []
  {
    if events != [] { NoWorkers(job, events[..|events| - 1]); }
  }

  // ---------- how much is left to happen ----------

  function StepsLeft(w: Worker): nat {
    match w
    case Started => 4
    case Running => 3
    case Ran => 2
    case Freed => 1
    case Gone => 0
  }

  function WorkLeft(workers: seq<Worker>): nat {
    if workers == [] then 0 else WorkLeft(workers[..|workers| - 1]) + StepsLeft(workers[|workers| - 1])
  }

  lemma {:induction false} WorkMove(workers: seq<Worker>, k: nat, w: Worker)
    requires k < |workers|
    ensures WorkLeft(workers[k := w]) == WorkLeft(workers) - StepsLeft(workers[k]) + StepsLeft(w)
    decreases |workers|
  {
    var n := |workers| - 1;
    if k == n {
      assert workers[k := w][..n] == workers[..n];
    } else {
      WorkMove(workers[..n], k, w);
      assert workers[k := w][..n] == workers[..n][k := w];
    }
  }

  lemma WorkStart(workers: seq<Worker>)
    ensures WorkLeft(workers + [Started]) == WorkLeft(workers) + 4
  {
    assert (workers + [Started])[..|workers|] == workers;
  }

  /** With such rates no run sees more ticks than there are requests, but for one. */
  lemma PacedTicks(job: Job, s: State)
    requires Inv(job, s) && job.minRps <= job.maxRps && Paced(job) && !s.pc.Draining? && !s.pc.Returned?
    ensures s.tick <= Known(job) + 1
  {
    if s.tick > 0 { PacedDispatch(job, s.tick - 1); }
  }

  lemma {:induction false} PacedDispatch(job: Job, n: nat)
    requires job.minRps <= job.maxRps && Paced(job)
    ensures DispatchedBy(job, n + 1) >= n
  {
    if n > 0 {
      PacedDispatch(job, n - 1);
      RateClimbs(job.minRps, job.maxRps, job.period, n);
    }
  }

  /** The steps the dispatching goroutine has left, at most, and those of workers to come. */
  function DispatchLeft(job: Job, s: State): int {
    var ahead := 2 + 4 * (Known(job) + 1 - s.tick) + 7 * (Known(job) - |s.workers|);
    match s.pc
    case Selecting => ahead + 3
    case Limiting => ahead + 2
    case Picking(_) => ahead + 1
    case Sending(_) => ahead
    case Draining(_) => 1
    case Returned(_) => 0
  }

  function Left(job: Job, s: State): int { DispatchLeft(job, s) + WorkLeft(s.workers) }

  lemma LeftIsNatural(job: Job, s: State)
    requires Inv(job, s) && job.minRps <= job.maxRps && Paced(job)
    ensures Left(job, s) >= 0
    ensures !s.pc.Draining? && !s.pc.Returned? ==> DispatchLeft(job, s) >= 2
  {
    if !s.pc.Draining? && !s.pc.Returned? { PacedTicks(job, s); }
  }

  lemma WorkerEventUsesUp(job: Job, s: State, e: Event)
    requires (e.Begin? || e.End? || e.Free? || e.Leave?) && Step(job, s, e) != s
    ensures WorkLeft(Step(job, s, e).workers) < WorkLeft(s.workers)
    ensures DispatchLeft(job, Step(job, s, e)) == DispatchLeft(job, s)
  {
    var w := match e
      case Begin(k) => if k < |job.present| && job.present[k] then Running else Ran
      case End(_) => Ran
      case Free(_) => Freed
      case _ => Gone;
    WorkMove(s.workers, e.k, w);
  }

  lemma SameWorkers(job: Job, s: State, e: Event)
    requires !e.Send? && !e.Begin? && !e.End? && !e.Free? && !e.Leave?
    ensures Step(job, s, e).workers == s.workers
  {
  }

  lemma DispatchEventUsesUp(job: Job, s: State, e: Event)
    requires Inv(job, s) && job.minRps <= job.maxRps && Paced(job) && Step(job, s, e) != s
    requires !e.Cancel? && !e.Begin? && !e.End? && !e.Free? && !e.Leave?
    ensures Left(job, Step(job, s, e)) < Left(job, s)
  {
    LeftIsNatural(job, s);
    if e.Send? {
      WorkStart(s.workers);
    } else {
      SameWorkers(job, s, e);
    }
  }

  /** Every event that changes anything, but for a cancellation, leaves less to happen. */
  lemma EventUsesUp(job: Job, s: State, e: Event)
    requires Inv(job, s) && job.minRps <= job.maxRps && Paced(job)
    requires !e.Cancel? && Step(job, s, e) != s
    ensures Left(job, Step(job, s, e)) < Left(job, s)
  {
    if e.Begin? || e.End? || e.Free? || e.Leave? {
      WorkerEventUsesUp(job, s, e);
    } else {
      DispatchEventUsesUp(job, s, e);
    }
  }

  ghost predicate Undisturbed(events: seq<Event>) { Cancel !in events }

  /** Every event of the run changed something. */
  ghost predicate Effective(job: Job, events: seq<Event>) {
    forall k | 0 <= k < |events| :: Step(job, Run(job, events[..k]), events[k]) != Run(job, events[..k])
  }

  lemma {:induction false} EffectiveRunUsesUp(job: Job, events: seq<Event>)
    requires job.minRps <= job.maxRps && Paced(job) && Undisturbed(events) && Effective(job, events)
    ensures Left(job, Run(job, events)) + |events| <= Left(job, INITIAL)
  {
    if events != [] {
      var before := events[..|events| - 1];
      assert Effective(job, before) by {
        forall k | 0 <= k < |before| ensures Step(job, Run(job, before[..k]), before[k]) != Run(job, before[..k]) {
          assert before[..k] == events[..k];
        }
      }
      EffectiveRunUsesUp(job, before);
      InvInEveryRun(job, before);
      EventUsesUp(job, Run(job, before), events[|events| - 1]);
    }
  }

  /** With such rates the dispatcher comes to an end however workers and ticks interleave: a
      run that is not cancelled has at most eleven events for each request and a few more. */
  lemma RunsAreFinite(job: Job, events: seq<Event>)
    requires job.minRps <= job.maxRps && Paced(job) && Undisturbed(events) && Effective(job, events)
    ensures |events| <= 11 * Known(job) + 9
  {
    EffectiveRunUsesUp(job, events);
    InvInEveryRun(job, events);
    LeftIsNatural(job, Run(job, events));
  }

  // ---------- exactly when it returns nil ----------

  /** The dispatcher has not been driven off course. */
  ghost predicate OnCourse(s: State) {
    !s.cancelled && (s.pc.Draining? || s.pc.Returned? ==> s.pc.result.Nil?)
  }

  lemma {:induction false} UndisturbedIsOnCourse(job: Job, events: seq<Event>)
    requires Undisturbed(events) && !job.deadline
    ensures OnCourse(Run(job, events))
  {
    if events != [] {
      var before := events[..|events| - 1];
      assert events == before + [events[|events| - 1]];
      UndisturbedIsOnCourse(job, before);
    }
  }

  lemma {:induction false} RunFromAppend(job: Job, s: State, a: seq<Event>, b: seq<Event>)
    ensures RunFrom(job, s, a + b) == RunFrom(job, RunFrom(job, s, a), b)
    decreases |b|
  {
    if b == [] {
      assert a + b == a;
    } else {
      RunFromAppend(job, s, a, b[..|b| - 1]);
      assert (a + b)[..|a + b| - 1] == a + b[..|b| - 1];
    }
  }

  lemma RunFromFirst(job: Job, s: State, e: Event, rest: seq<Event>)
    ensures RunFrom(job, s, [e] + rest) == RunFrom(job, Step(job, s, e), rest)
  {
    RunFromAppend(job, s, [e], rest);
    assert [e][..0] == [];
  }

  /** An event that brings the dispatcher nearer to its end. */
  lemma NextOnCourse(job: Job, s: State) returns (e: Event)
    requires Inv(job, s) && OnCourse(s) && !job.deadline && !s.pc.Returned?
    requires job.minRps <= job.maxRps && Paced(job) && job.maxInFlight >= 1
    ensures !e.Cancel? && Inv(job, Step(job, s, e)) && OnCourse(Step(job, s, e))
    ensures 0 <= Left(job, Step(job, s, e)) < Left(job, s)
  {
    PacedPasses(job, s.tick);
    e := NextEvent(job, s);
    EventUsesUp(job, s, e);
    StepKeepsInv(job, s, e);
    LeftIsNatural(job, Step(job, s, e));
  }

  lemma {:induction false} CanFinish(job: Job, s: State) returns (more: seq<Event>)
    requires Inv(job, s) && OnCourse(s) && !job.deadline
    requires job.minRps <= job.maxRps && Paced(job) && job.maxInFlight >= 1
    ensures Undisturbed(more) && RunFrom(job, s, more).pc == Returned(Nil)
    decreases Left(job, s)
  {
    if s.pc.Returned? {
      more := [];
    } else {
      var e := NextOnCourse(job, s);
      var rest := CanFinish(job, Step(job, s, e));
      more := [e] + rest;
      RunFromFirst(job, s, e, rest);
    }
  }

  /** Whatever has happened, short of a cancellation, the dispatcher can still return nil. */
  ghost predicate AlwaysFinishes(job: Job) {
    forall events | Undisturbed(events) ::
      exists more :: Undisturbed(more) && Run(job, events + more).pc == Returned(Nil)
  }

  /** The limiter stops the dispatcher in the second tick, or no tick dispatches anything. */
  lemma {:induction false} UnpacedGoesNowhere(job: Job, events: seq<Event>)
    requires job.minRps <= job.maxRps && !Paced(job)
    ensures var s := Run(job, events);
            (s.pc.Draining? || s.pc.Returned? ==> s.pc.result.Error?) && s.workers == [] && s.begun == []
            && (job.period > 0 ==> s.tick <= 1 && (s.tick == 1 ==> !s.pc.Picking? && !s.pc.Sending?))
  {
    if events != [] {
      UnpacedGoesNowhere(job, events[..|events| - 1]);
      InvInEveryRun(job, events[..|events| - 1]);
      UnpacedQuota(job, Run(job, events[..|events| - 1]).tick);
    }
  }

  lemma UnpacedQuota(job: Job, n: nat)
    requires job.minRps <= job.maxRps && !Paced(job)
    ensures job.period <= 0 ==> QuotaOf(job, n) == 0
    ensures job.period > 0 ==> QuotaOf(job, 0) == 0 && !MayPass(job, 1)
  {
    RateClimbs(job.minRps, job.maxRps, job.period, n);
  }

  /** With other rates no run of the dispatcher ever returns nil, and one that is not cancelled
      does not return at all. */
  lemma UnpacedNeverReturns(job: Job, events: seq<Event>)
    requires job.minRps <= job.maxRps && !Paced(job)
    ensures Run(job, events).pc != Returned(Nil) && Run(job, events).begun == []
    ensures Undisturbed(events) && !job.deadline ==> !Run(job, events).pc.Returned?
  {
    UnpacedGoesNowhere(job, events);
    if Undisturbed(events) && !job.deadline { UndisturbedIsOnCourse(job, events); }
  }

  /** The exact condition: a dispatcher whose rates are in order, with room for a request and no
      deadline, always gets to its nil return if and only if the maximum is positive and the
      minimum is too, or there is no ramp. */
  lemma AlwaysFinishesIff(job: Job)
    requires job.minRps <= job.maxRps && job.maxInFlight >= 1 && !job.deadline
    ensures AlwaysFinishes(job) <==> job.maxRps >= 1 && (job.minRps >= 1 || job.period <= 0)
  {
    if Paced(job) {
      forall events | Undisturbed(events)
        ensures exists more :: Undisturbed(more) && Run(job, events + more).pc == Returned(Nil)
      {
        InvInEveryRun(job, events);
        UndisturbedIsOnCourse(job, events);
        var more := CanFinish(job, Run(job, events));
        RunFromAppend(job, INITIAL, events, more);
        assert Undisturbed(more) && Run(job, events + more).pc == Returned(Nil);
      }
    } else {
      assert Undisturbed([]);
      forall more ensures Run(job, [] + more).pc != Returned(Nil) { UnpacedNeverReturns(job, [] + more); }
    }
  }

  // ---------- cancellation ----------

  ghost predicate HasReason(job: Job, s: State, wasCancelled: bool) {
    && s.cancelled == wasCancelled
    && ((s.pc.Draining? || s.pc.Returned?) && s.pc.result.Error? ==> wasCancelled || job.deadline)
  }

  lemma StepHasReason(job: Job, s: State, e: Event)
    requires HasReason(job, s, s.cancelled)
    ensures HasReason(job, Step(job, s, e), s.cancelled || e.Cancel?)
  {
  }

  /** In every run: it is cancelled if and only if a cancellation is among its events, and an
      error is returned only after one, or with a deadline. */
  lemma {:induction false} ErrorHasReason(job: Job, events: seq<Event>)
    ensures
      var s := Run(job, events);
      && (s.cancelled <==> Cancel in events)
      && ((s.pc.Draining? || s.pc.Returned?) && s.pc.result.Error? ==> Cancel in events || job.deadline)
  {
    if events != [] {
      var before, last := events[..|events| - 1], events[|events| - 1];
      ErrorHasReason(job, before);
      StepHasReason(job, Run(job, before), last);
      assert events == before + [last];
    }
  }

  /** How far the dispatching goroutine is from giving up, once it is cancelled. */
  function TurnsLeft(job: Job, s: State): int {
    var ahead := 2 * (Known(job) - |s.workers|);
    match s.pc
    case Selecting => 2
    case Limiting => 2
    case Picking(_) => ahead + 4
    case Sending(_) => ahead + 3
    case Draining(_) => 1
    case Returned(_) => 0
  }

  ghost predicate Nearer(job: Job, t: State, s: State) {
    && t.cancelled && 0 <= TurnsLeft(job, t)
    && (TurnsLeft(job, t) < TurnsLeft(job, s)
          || (TurnsLeft(job, t) == TurnsLeft(job, s) && WorkLeft(t.workers) < WorkLeft(s.workers)))
  }

  lemma WorkerEventIsNearer(job: Job, s: State, e: Event)
    requires Inv(job, s) && s.cancelled && (e.Begin? || e.End? || e.Free? || e.Leave?) && Step(job, s, e) != s
    ensures Nearer(job, Step(job, s, e), s)
  {
    WorkerEventUsesUp(job, s, e);
  }

  lemma DispatchEventIsNearer(job: Job, s: State, e: Event)
    requires Inv(job, s) && s.cancelled && (e.Pick? || e.Send? || e.Drained?) && Step(job, s, e) != s
    ensures Nearer(job, Step(job, s, e), s)
  {
  }

  /** An event that brings a cancelled dispatcher nearer to its return: where it stands at the
      ticker or at the limiter, the context lets it go with an error. */
  lemma NextOnceCancelled(job: Job, s: State) returns (e: Event)
    requires Inv(job, s) && s.cancelled && job.maxInFlight >= 1 && !s.pc.Returned?
    ensures !e.Tick? && !e.WaitOk? && Nearer(job, Step(job, s, e), s)
  {
    match s.pc
    case Selecting => e := Done;
    case Limiting => e := WaitFailed;
    case _ =>
      e := NextEvent(job, s);
      if e.Begin? || e.End? || e.Free? || e.Leave? {
        WorkerEventIsNearer(job, s, e);
      } else {
        DispatchEventIsNearer(job, s, e);
      }
  }

  lemma {:induction false} CanReturn(job: Job, s: State) returns (more: seq<Event>)
    requires Inv(job, s) && s.cancelled && job.maxInFlight >= 1
    ensures RunFrom(job, s, more).pc.Returned? && Tick !in more && WaitOk !in more
    decreases TurnsLeft(job, s), WorkLeft(s.workers)
  {
    if s.pc.Returned? {
      more := [];
    } else {
      var e := NextOnceCancelled(job, s);
      StepKeepsInv(job, s, e);
      var rest := CanReturn(job, Step(job, s, e));
      more := [e] + rest;
      RunFromFirst(job, s, e, rest);
    }
  }

  /** Whatever the rates, and whatever has happened, a cancelled dispatcher with room for a
      request can come back: without another tick and without the limiter. */
  lemma CancelledCanReturn(job: Job, events: seq<Event>) returns (more: seq<Event>)
    requires Cancel in events && job.maxInFlight >= 1
    ensures Run(job, events + more).pc.Returned? && Tick !in more && WaitOk !in more
  {
    InvInEveryRun(job, events);
    ErrorHasReason(job, events);
    more := CanReturn(job, Run(job, events));
    RunFromAppend(job, INITIAL, events, more);
  }
}

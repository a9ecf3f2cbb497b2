/** The queue between an event emitter and an async iterator
    (`createAsyncIterableFromReadable`): the object the callbacks update, the state machine
    it implements, and what holds in every interleaving of events and next() calls. */
module StreamAdapter {
  import opened Results

  /** What an 'error' event carries; JavaScript lets it be a falsy value. */
  datatype Thrown = Thrown(id: nat, truthy: bool)

  /** How the promise of a next() call settled: with the chunk received at a position, with
      the end, or with an error. */
  datatype Outcome<+C> = Chunk(position: nat, chunk: C) | Done | Rejected(error: Thrown)

  datatype Event<+C> = Data(chunk: C) | End | Error(error: Thrown) | Next | Return

  /** The variables of the adapter, which listeners are attached, and the history: the chunks
      received, how many were handed over, the next() calls made and how they settled. */
  datatype State<C> = State(
    queue: seq<C>, pendings: seq<nat>, ended: bool, error: Option<Thrown>,
    onData: bool, onEnd: bool, onError: bool,
    received: seq<C>, delivered: nat, calls: nat, outcomes: map<nat, Outcome<C>>
  )

  function Initial<C>(): State<C> {
    State([], [], false, None, true, true, true, [], 0, 0, map[])
  }

  predicate Failed(error: Option<Thrown>) {
    error.Some? && error.value.truthy
  }

  function Cleanup<C>(s: State<C>): State<C> {
    s.(onData := false, onEnd := false, onError := false)
  }

  function SettleAll<C>(outcomes: map<nat, Outcome<C>>, ids: seq<nat>, outcome: Outcome<C>): map<nat, Outcome<C>>
    decreases |ids|
  {
    if ids == [] then outcomes else SettleAll(outcomes[ids[0] := outcome], ids[1..], outcome)
  }

  function Step<C>(s: State<C>, e: Event<C>): State<C> {
    match e
    case Data(chunk) =>
      if !s.onData then s
      else if s.pendings != [] then
        s.(pendings := s.pendings[1..], received := s.received + [chunk], delivered := s.delivered + 1,
           outcomes := s.outcomes[s.pendings[0] := Chunk(s.delivered, chunk)])
      else s.(queue := s.queue + [chunk], received := s.received + [chunk])
    case End =>
      if !s.onEnd then s
      else if Failed(s.error) then s.(onEnd := false)
      else s.(onEnd := false, ended := true, pendings := [], outcomes := SettleAll(s.outcomes, s.pendings, Done))
    case Error(error) =>
      if !s.onError then s
      else
        var rejected := SettleAll(s.outcomes, s.pendings, Rejected(error));
        Cleanup(s.(error := Some(error), pendings := [], outcomes := rejected))
    case Next =>
      var id, t := s.calls, s.(calls := s.calls + 1);
      if Failed(s.error) then t.(outcomes := s.outcomes[id := Rejected(s.error.value)])
      else if s.queue != [] then
        t.(queue := s.queue[1..], delivered := s.delivered + 1,
           outcomes := s.outcomes[id := Chunk(s.delivered, s.queue[0])])
      else if s.ended then Cleanup(t.(outcomes := s.outcomes[id := Done]))
      else t.(pendings := s.pendings + [id])
    case Return => Cleanup(s)
  }

  function Run<C>(s: State<C>, events: seq<Event<C>>): State<C> {
    if events == [] then s else Step(Run(s, events[..|events| - 1]), events[|events| - 1])
  }

  // ---------- the object the callbacks update ----------

  class Adapter<C> {
    var chunkQueue: seq<C>
    var pendings: seq<nat>
    var ended: bool
    var error: Option<Thrown>
    var onData: bool
    var onEnd: bool
    var onError: bool
    var calls: nat
    var outcomes: map<nat, Outcome<C>>
    ghost var received: seq<C>
    var delivered: nat

    ghost function View(): State<C>
      reads this
    {
      State(chunkQueue, pendings, ended, error, onData, onEnd, onError, received, delivered, calls, outcomes)
    }

    constructor ()
      ensures View() == Initial()
    {
      chunkQueue, pendings, ended, error := [], [], false, None;
      onData, onEnd, onError := true, true, true;
      calls, delivered, outcomes, received := 0, 0, map[], [];
    }

    method Detach()
      modifies this`onData, this`onEnd, this`onError
      ensures View() == Cleanup(old(View()))
    {
      onData, onEnd, onError := false, false, false;
    }

    method OnData(chunk: C)
      modifies this
      ensures View() == Step(old(View()), Data(chunk))
    {
      if onData {
        received := received + [chunk];
        if |pendings| > 0 {
          var id := pendings[0];
          pendings := pendings[1..];
          outcomes := outcomes[id := Chunk(delivered, chunk)];
          delivered := delivered + 1;
        } else {
          chunkQueue := chunkQueue + [chunk];
        }
      }
    }

    method OnEnd()
      modifies this
      ensures View() == Step(old(View()), End)
    {
      if onEnd {
        onEnd := false;
        if error.Some? && error.value.truthy {
          return;
        }
        ended := true;
        while |pendings| > 0
          invariant SettleAll(outcomes, pendings, Done) == SettleAll(old(outcomes), old(pendings), Done)
          invariant View().(pendings := [], outcomes := map[])
              == old(View()).(onEnd := false, ended := true, pendings := [], outcomes := map[])
          decreases |pendings|
        {
          var id := pendings[0];
          pendings := pendings[1..];
          outcomes := outcomes[id := Done];
        }
      }
    }

    method OnError(err: Thrown)
      modifies this
      ensures View() == Step(old(View()), Error(err))
    {
      if onError {
        error := Some(err);
        while |pendings| > 0
          invariant SettleAll(outcomes, pendings, Rejected(err))
              == SettleAll(old(outcomes), old(pendings), Rejected(err))
          invariant View().(pendings := [], outcomes := map[])
              == old(View()).(error := Some(err), pendings := [], outcomes := map[])
          decreases |pendings|
        {
          var id := pendings[0];
          pendings := pendings[1..];
          outcomes := outcomes[id := Rejected(err)];
        }
        Detach();
      }
    }

    method CallNext() returns (id: nat)
      modifies this
      ensures View() == Step(old(View()), Next)
      ensures id == old(calls)
    {
      id := calls;
      calls := calls + 1;
      if error.Some? && error.value.truthy {
        outcomes := outcomes[id := Rejected(error.value)];
      } else if |chunkQueue| > 0 {
        var chunk := chunkQueue[0];
        chunkQueue := chunkQueue[1..];
        outcomes := outcomes[id := Chunk(delivered, chunk)];
        delivered := delivered + 1;
      } else if ended {
        Detach();
        outcomes := outcomes[id := Done];
      } else {
        pendings := pendings + [id];
      }
    }

    method CallReturn()
      modifies this
      ensures View() == Step(old(View()), Return)
    {
      Detach();
    }
  }

  // ---------- what every interleaving keeps ----------

  /** Nobody waits while a chunk does, nobody waits after the end or after an error that can
      be seen, and every chunk received is handed over or queued, in order. */
  ghost predicate Queues<C>(s: State<C>) {
    && (s.queue == [] || s.pendings == [])
    && (s.ended || Failed(s.error) ==> s.pendings == [])
    && s.delivered <= |s.received| && s.received[s.delivered..] == s.queue
  }

  /** Exactly the calls that are not waiting have settled, and calls wait in order. */
  ghost predicate Ledger<C>(s: State<C>) {
    && (forall id: nat :: id in s.outcomes <==> id < s.calls && id !in s.pendings)
    && (forall i | 0 <= i < |s.pendings| :: s.pendings[i] < s.calls)
    && (forall i, j | 0 <= i < j < |s.pendings| :: s.pendings[i] < s.pendings[j])
  }

  /** A call that got a chunk got the one received at its position, and later calls get
      later chunks. */
  ghost predicate Order<C>(s: State<C>) {
    && (forall id: nat | id in s.outcomes && s.outcomes[id].Chunk? ::
          s.outcomes[id].position < s.delivered <= |s.received|
              && s.outcomes[id].chunk == s.received[s.outcomes[id].position])
    && (forall i: nat, j: nat | i in s.outcomes && j in s.outcomes && i < j && s.outcomes[i].Chunk?
        && s.outcomes[j].Chunk? ::
          s.outcomes[i].position < s.outcomes[j].position)
    && (forall id: nat, i | id in s.outcomes && s.outcomes[id].Chunk? && 0 <= i < |s.pendings| :: id < s.pendings[i])
  }

  ghost predicate Inv<C>(s: State<C>) {
    Queues(s) && Ledger(s) && Order(s)
  }

  lemma {:induction false} SettleAllKeys<C>(outcomes: map<nat, Outcome<C>>, ids: seq<nat>, outcome: Outcome<C>)
    ensures forall id: nat :: id in SettleAll(outcomes, ids, outcome) <==> id in outcomes || id in ids
    ensures forall id: nat | id in SettleAll(outcomes, ids, outcome) ::
              SettleAll(outcomes, ids, outcome)[id] == if id in ids then outcome else outcomes[id]
    decreases |ids|
  {
    if ids != [] {
      SettleAllKeys(outcomes[ids[0] := outcome], ids[1..], outcome);
      assert ids == [ids[0]] + ids[1..];
    }
  }

  lemma DataKeepsInv<C>(s: State<C>, chunk: C)
    requires Inv(s)
    ensures Inv(Step(s, Data(chunk)))
  {
    if s.onData && s.pendings != [] {
      DataKeepsLedger(s, chunk);
      DataKeepsOrder(s, chunk);
    }
  }

  lemma DataKeepsLedger<C>(s: State<C>, chunk: C)
    requires Queues(s) && Ledger(s) && s.onData && s.pendings != []
    ensures Ledger(Step(s, Data(chunk)))
  {
    var t := Step(s, Data(chunk));
    assert s.pendings == [s.pendings[0]] + t.pendings;
    forall id: nat ensures id in t.outcomes <==> id < t.calls && id !in t.pendings {
      if id == s.pendings[0] {
        assert forall i | 0 <= i < |t.pendings| :: t.pendings[i] == s.pendings[i + 1];
      }
    }
  }

  lemma DataKeepsOrder<C>(s: State<C>, chunk: C)
    requires Queues(s) && Ledger(s) && Order(s) && s.onData && s.pendings != []
    ensures Order(Step(s, Data(chunk)))
  {
    assert s.delivered == |s.received|;
    assert s.pendings[0] !in s.outcomes;
  }

  lemma SettledKeepInv<C>(s: State<C>, outcome: Outcome<C>)
    requires Inv(s) && !outcome.Chunk?
    ensures Inv(s.(pendings := [], outcomes := SettleAll(s.outcomes, s.pendings, outcome)))
  {
    SettleAllKeys(s.outcomes, s.pendings, outcome);
  }

  lemma NextKeepsInv<C>(s: State<C>)
    requires Inv(s)
    ensures Inv(Step(s, Next))
  {
    NextKeepsLedger(s);
    NextKeepsOrder(s);
  }

  lemma NextKeepsLedger<C>(s: State<C>)
    requires Queues(s) && Ledger(s)
    ensures Ledger(Step(s, Next))
  {
  }

  lemma NextKeepsOrder<C>(s: State<C>)
    requires Queues(s) && Ledger(s) && Order(s)
    ensures Order(Step(s, Next))
  {
    if !Failed(s.error) && s.queue != [] {
      TakenKeepsOrder(s);
    } else if Failed(s.error) || s.ended {
      assert s.pendings == [];
    }
  }

  lemma TakenKeepsOrder<C>(s: State<C>)
    requires Queues(s) && Ledger(s) && Order(s) && s.queue != [] && !Failed(s.error)
    ensures Order(Step(s, Next))
  {
    assert s.pendings == [] && s.queue[0] == s.received[s.delivered];
    assert s.calls !in s.outcomes;
  }

  lemma EndKeepsInv<C>(s: State<C>)
    requires Inv(s)
    ensures Inv(Step(s, End))
  {
    SettledKeepInv(s, Done);
  }

  lemma ErrorKeepsInv<C>(s: State<C>, error: Thrown)
    requires Inv(s)
    ensures Inv(Step(s, Error(error)))
  {
    SettledKeepInv(s, Rejected(error));
  }

  lemma ReturnKeepsInv<C>(s: State<C>)
    requires Inv(s)
    ensures Inv(Step(s, Return))
  {
  }

  lemma StepKeepsInv<C>(s: State<C>, e: Event<C>)
    requires Inv(s)
    ensures Inv(Step(s, e))
  {
    match e
    case Data(chunk) => DataKeepsInv(s, chunk);
    case End => EndKeepsInv(s);
    case Error(error) => ErrorKeepsInv(s, error);
    case Next => NextKeepsInv(s);
    case Return => ReturnKeepsInv(s);
  }

  /** In every interleaving of data, end, error, next() and return() from the start. */
  lemma {:induction false} InvInEveryRun<C>(events: seq<Event<C>>)
    ensures Inv(Run(Initial(), events))
  {
    if events != [] {
      InvInEveryRun(events[..|events| - 1]);
      StepKeepsInv(Run(Initial<C>(), events[..|events| - 1]), events[|events| - 1]);
    }
  }

  /** A promise that has settled stays as it settled. */
  lemma SettlesOnce<C>(s: State<C>, e: Event<C>)
    requires Inv(s)
    ensures forall id: nat | id in s.outcomes :: id in Step(s, e).outcomes && Step(s, e).outcomes[id] == s.outcomes[id]
  {
    match e
    case Data(_) =>
    case End => SettleAllKeys(s.outcomes, s.pendings, Done);
    case Error(error) => SettleAllKeys(s.outcomes, s.pendings, Rejected(error));
    case Next =>
    case Return =>
  }

  /** The end is reported only when every chunk received so far has been handed over. */
  lemma DrainsBeforeDone<C>(s: State<C>, e: Event<C>, id: nat)
    requires Inv(s)
    requires id !in s.outcomes && id in Step(s, e).outcomes && Step(s, e).outcomes[id].Done?
    ensures Step(s, e).delivered == |Step(s, e).received| && Step(s, e).queue == []
  {
    match e
    case Data(_) =>
    case End => SettleAllKeys(s.outcomes, s.pendings, Done);
    case Error(error) => SettleAllKeys(s.outcomes, s.pendings, Rejected(error));
    case Next =>
    case Return =>
  }

  // ---------- how calls settle ----------

  ghost predicate Detached<C>(s: State<C>) { !s.onData && !s.onEnd && !s.onError }

  /** An error rejects every call that waits, with that very error, and nobody waits any more. */
  lemma ErrorRejectsWaiting<C>(s: State<C>, error: Thrown)
    requires s.onError
    ensures
      var t := Step(s, Error(error));
      && t.pendings == [] && t.error == Some(error)
      && forall id | id in s.pendings :: id in t.outcomes && t.outcomes[id] == Rejected(error)
  {
    SettleAllKeys(s.outcomes, s.pendings, Rejected(error));
  }

  /** The end tells every call that waits, unless an error was seen before. */
  lemma EndFinishesWaiting<C>(s: State<C>)
    requires s.onEnd && !Failed(s.error)
    ensures
      var t := Step(s, End);
      && t.pendings == [] && t.ended
      && forall id | id in s.pendings :: id in t.outcomes && t.outcomes[id] == Done
  {
    SettleAllKeys(s.outcomes, s.pendings, Done);
  }

  /** A chunk goes to the call that has waited longest, and to the end of the queue if there is
      none; no other call settles. */
  lemma ChunkGoesToLongestWaiting<C>(s: State<C>, chunk: C)
    requires Inv(s) && s.onData
    ensures
      var t := Step(s, Data(chunk));
      t.received == s.received + [chunk] &&
      if s.pendings == [] then t.queue == s.queue + [chunk] && t.outcomes == s.outcomes
      else
        && t.pendings == s.pendings[1..] && t.queue == []
        && t.outcomes == s.outcomes[s.pendings[0] := Chunk(|s.received|, chunk)]
  {
  }

  /** What a call of next() comes to: the error that was seen, else the chunk at the head of the
      queue, else the end; and only when there is none of them does it wait. */
  lemma NextOutcome<C>(s: State<C>)
    requires Inv(s)
    ensures
      var t := Step(s, Next);
      && (s.calls in t.outcomes <==> Failed(s.error) || s.queue != [] || s.ended)
      && (s.calls in t.outcomes ==>
            match t.outcomes[s.calls]
            case Rejected(error) => s.error == Some(error) && error.truthy
            case Chunk(p, chunk) => !Failed(s.error) && p == s.delivered && s.queue != [] && chunk == s.queue[0]
            case Done => !Failed(s.error) && s.queue == [] && s.ended)
      && (s.calls !in t.outcomes ==> t.pendings == s.pendings + [s.calls])
  {
    assert s.calls !in s.outcomes;
  }

  /** Nothing is said that did not happen: the end is reported only when there was one, and an
      error only when it was thrown. */
  ghost predicate Grounded<C>(s: State<C>, events: seq<Event<C>>) {
    && (s.ended ==> End in events)
    && (s.error.Some? ==> Error(s.error.value) in events)
    && (forall id: nat | id in s.outcomes && s.outcomes[id].Done? :: s.ended)
    && (forall id: nat | id in s.outcomes && s.outcomes[id].Rejected? :: Error(s.outcomes[id].error) in events)
  }

  lemma StepGrounded<C>(s: State<C>, e: Event<C>, events: seq<Event<C>>)
    requires Grounded(s, events)
    ensures Grounded(Step(s, e), events + [e])
  {
    match e
    case Data(_) =>
    case End => SettleAllKeys(s.outcomes, s.pendings, Done);
    case Error(error) => SettleAllKeys(s.outcomes, s.pendings, Rejected(error));
    case Next =>
    case Return =>
  }

  lemma {:induction false} GroundedInEveryRun<C>(events: seq<Event<C>>)
    ensures Grounded(Run(Initial(), events), events)
  {
    if events != [] {
      var before, last := events[..|events| - 1], events[|events| - 1];
      GroundedInEveryRun(before);
      StepGrounded(Run(Initial<C>(), before), last, before);
      assert events == before + [last];
    }
  }

  /** Listeners are gone after an error, after return(), and once next() has reported the end;
      what the source then emits changes nothing. */
  lemma DetachedAfter<C>(s: State<C>, error: Thrown)
    ensures s.onError ==> Detached(Step(s, Error(error)))
    ensures Detached(Step(s, Return))
    ensures !Failed(s.error) && s.queue == [] && s.ended ==> Detached(Step(s, Next))
    ensures Detached(s) ==> forall e: Event<C> | e.Data? || e.End? || e.Error? :: Step(s, e) == s
    ensures !Step(s, End).onEnd && forall e: Event<C> | !s.onEnd :: !Step(s, e).onEnd
  {
  }

  function Emitted<C>(events: seq<Event<C>>): seq<C> {
    if events == [] then []
    else
      var last := events[|events| - 1];
      Emitted(events[..|events| - 1]) + if last.Data? then [last.chunk] else []
  }

  /** Until an end, an error or return() the adapter hears everything: all listeners are
      attached and the chunks received are the chunks emitted. */
  lemma {:induction false} EverythingIsHeard<C>(events: seq<Event<C>>)
    requires forall e | e in events :: e.Data? || e.Next?
    ensures
      var s := Run(Initial<C>(), events);
      && s.onData && s.onEnd && s.onError && !s.ended && s.error.None?
      && s.received == Emitted(events)
  {
    if events != [] {
      EverythingIsHeard(events[..|events| - 1]);
    }
  }

  // ---------- chunks come in order, none left out ----------

  /** Some call got the chunk received at a position. */
  ghost predicate Got<C>(s: State<C>, p: nat) {
    exists id: nat :: id in s.outcomes && s.outcomes[id].Chunk? && s.outcomes[id].position == p
  }

  ghost predicate NoneSkipped<C>(s: State<C>) {
    forall p: nat | p < s.delivered :: Got(s, p)
  }

  lemma GotStays<C>(s: State<C>, e: Event<C>, p: nat)
    requires Inv(s) && Got(s, p)
    ensures Got(Step(s, e), p)
  {
    SettlesOnce(s, e);
    var id: nat :| id in s.outcomes && s.outcomes[id].Chunk? && s.outcomes[id].position == p;
    assert Step(s, e).outcomes[id] == s.outcomes[id];
  }

  lemma StepSkipsNone<C>(s: State<C>, e: Event<C>)
    requires Inv(s) && NoneSkipped(s)
    ensures NoneSkipped(Step(s, e))
  {
    var t := Step(s, e);
    forall p: nat | p < t.delivered ensures Got(t, p) {
      if p < s.delivered {
        GotStays(s, e, p);
      } else {
        var id := if e.Data? then s.pendings[0] else s.calls;
        assert t.outcomes[id].Chunk? && t.outcomes[id].position == p;
      }
    }
  }

  lemma {:induction false} NoneSkippedInEveryRun<C>(events: seq<Event<C>>)
    ensures NoneSkipped(Run(Initial(), events))
  {
    if events != [] {
      NoneSkippedInEveryRun(events[..|events| - 1]);
      InvInEveryRun(events[..|events| - 1]);
      StepSkipsNone(Run(Initial<C>(), events[..|events| - 1]), events[|events| - 1]);
    }
  }

  /** In every run the chunks handed over are a prefix of the chunks received: each of the
      first `delivered` chunks went to exactly one call, no other chunk to any, and a later
      call got a later chunk. */
  lemma DeliveredIsPrefix<C>(events: seq<Event<C>>)
    ensures
      var s := Run(Initial<C>(), events);
      && s.delivered <= |s.received|
      && (forall p: nat | p < s.delivered :: Got(s, p))
      && (forall id: nat | id in s.outcomes && s.outcomes[id].Chunk? ::
            s.outcomes[id].position < s.delivered && s.outcomes[id].chunk == s.received[s.outcomes[id].position])
      && (forall i: nat, j: nat | i in s.outcomes && j in s.outcomes && i < j && s.outcomes[i].Chunk?
          && s.outcomes[j].Chunk? ::
            s.outcomes[i].position < s.outcomes[j].position)
  {
    InvInEveryRun(events);
    NoneSkippedInEveryRun(events);
  }

  // ---------- who may wait forever ----------

  lemma {:induction false} RunAppend<C>(s: State<C>, a: seq<Event<C>>, b: seq<Event<C>>)
    ensures Run(s, a + b) == Run(Run(s, a), b)
  {
    if b == [] {
      assert a + b == a;
    } else {
      RunAppend(s, a, b[..|b| - 1]);
      assert (a + b)[..|a + b| - 1] == a + b[..|b| - 1];
    }
  }

  /** Once the listeners are gone, a consumer that waits waits forever. */
  lemma {:induction false} DetachedWaitsForever<C>(s: State<C>, events: seq<Event<C>>)
    requires Detached(s)
    ensures Detached(Run(s, events)) && s.pendings <= Run(s, events).pendings
  {
    if events != [] {
      DetachedWaitsForever(s, events[..|events| - 1]);
    }
  }

  lemma {:induction false} ClosedStaysClosed<C>(s: State<C>, events: seq<Event<C>>)
    requires Inv(s) && Detached(s) && (s.ended || Failed(s.error))
    ensures Run(s, events).pendings == [] && Inv(Run(s, events))
    ensures Run(s, events).ended == s.ended && Run(s, events).error == s.error && Detached(Run(s, events))
  {
    if events != [] {
      ClosedStaysClosed(s, events[..|events| - 1]);
      StepKeepsInv(Run(s, events[..|events| - 1]), events[|events| - 1]);
    }
  }

  /** After an error that can be seen, every later next() is rejected with it. */
  lemma {:induction false} LaterCallsAreRejected<C>(s: State<C>, error: Thrown, events: seq<Event<C>>)
    requires Inv(s) && s.onError && error.truthy
    ensures
      var t := Run(Step(s, Error(error)), events);
      && t.error == Some(error)
      && forall id: nat | s.calls <= id < t.calls :: id in t.outcomes && t.outcomes[id] == Rejected(error)
  {
    var after := Step(s, Error(error));
    StepKeepsInv(s, Error(error));
    if events != [] {
      var before, last := events[..|events| - 1], events[|events| - 1];
      LaterCallsAreRejected(s, error, before);
      ClosedStaysClosed(after, before);
      SettlesOnce(Run(after, before), last);
    }
  }

  function Nexts<C>(n: nat): seq<Event<C>> {
    if n == 0 then [] else [Next] + Nexts(n - 1)
  }

  /** With the queue drained and nothing to end it, the following call waits. */
  lemma {:induction false} DrainThenWait<C>(s: State<C>)
    requires Detached(s) && !s.ended && !Failed(s.error)
    ensures Run(s, Nexts(|s.queue| + 1)).pendings != []
    decreases |s.queue|
  {
    var rest := Nexts<C>(|s.queue|);
    RunAppend(s, [Next], rest);
    assert [Event<C>.Next][..0] == [];
    assert Run(s, [Next]) == Step(s, Next);
    if s.queue == [] {
      assert Run(Step(s, Next), rest) == Step(s, Next);
    } else {
      DrainThenWait(Step(s, Next));
    }
  }

  /** After an error nobody is ever left waiting if and only if the error is a truthy value
      or the stream had already ended: the code asks `if (error)`, and a falsy error has
      removed the listeners without being seen. */
  lemma ErrorIsSeenIff<C>(s: State<C>, error: Thrown)
    requires Inv(s) && s.onError
    ensures (forall events :: Run(Step(s, Error(error)), events).pendings == []) <==> error.truthy || s.ended
  {
    var t := Step(s, Error(error));
    StepKeepsInv(s, Error(error));
    if error.truthy || s.ended {
      forall events ensures Run(t, events).pendings == [] { ClosedStaysClosed(t, events); }
    } else {
      DrainThenWait(t);
    }
  }

  /** return() detaches without settling: whoever is waiting then waits in every future. */
  lemma ReturnAbandons<C>(s: State<C>, events: seq<Event<C>>)
    ensures s.pendings <= Run(Step(s, Return), events).pendings
  {
    DetachedWaitsForever(Step(s, Return), events);
  }
}

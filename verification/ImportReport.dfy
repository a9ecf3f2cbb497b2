/** What an import tells its caller: the tuples that succeeded and those that failed, put
    together from the replies to its requests. */
module ImportReport {
  import opened Sequences
  import opened Dispatcher
  import opened ImportChunks

  /** What is said of one tuple of a request; that of a delete is one without a condition. */
  datatype Status<T> = Status(tuple: T, success: bool)

  /** How the call of a request ends. */
  datatype Reply<T> = Erred | Answered(writes: seq<Status<T>>, deletes: seq<Status<T>>)

  datatype Report<T> = Report(successful: seq<T>, failed: seq<T>)

  function Tuples<T>(statuses: seq<Status<T>>): seq<T> {
    if statuses == [] then [] else Tuples(statuses[..|statuses| - 1]) + [statuses[|statuses| - 1].tuple]
  }

  /** The tuples that succeeded, or those that did not, in order. */
  function Having<T>(statuses: seq<Status<T>>, success: bool): seq<T> {
    if statuses == [] then []
    else
      var last := statuses[|statuses| - 1];
      Having(statuses[..|statuses| - 1], success) + (if last.success == success then [last.tuple] else [])
  }

  /** The positions at which a tuple is said to have succeeded, or to have failed. */
  ghost function Positions<T>(statuses: seq<Status<T>>, tuple: T, success: bool): set<nat> {
    set p: nat | p < |statuses| && statuses[p].tuple == tuple && statuses[p].success == success
  }

  /** A tuple is listed as often as its success, or failure, is stated. */
  lemma {:induction false} HavingCounts<T>(statuses: seq<Status<T>>, tuple: T, success: bool)
    ensures multiset(Having(statuses, success))[tuple] == |Positions(statuses, tuple, success)|
  {
    if statuses != [] {
      var before, last := statuses[..|statuses| - 1], statuses[|statuses| - 1];
      HavingCounts(before, tuple, success);
      PositionsGrow(before, last, tuple, success);
      assert statuses == before + [last];
    }
  }

  lemma PositionsGrow<T>(before: seq<Status<T>>, last: Status<T>, tuple: T, success: bool)
    ensures |Positions(before + [last], tuple, success)|
            == |Positions(before, tuple, success)| + if last == Status(tuple, success) then 1 else 0
  {
    assert Positions(before + [last], tuple, success)
        == Positions(before, tuple, success) + (if last == Status(tuple, success) then {|before|} else {});
  }

  lemma {:induction false} EitherOr<T>(statuses: seq<Status<T>>)
    ensures multiset(Having(statuses, true)) + multiset(Having(statuses, false)) == multiset(Tuples(statuses))
  {
    if statuses != [] { EitherOr(statuses[..|statuses| - 1]); }
  }

  /** `processWrites` and `processDeletes` */
  method Process<T>(statuses: seq<Status<T>>) returns (successful: seq<T>, failed: seq<T>)
    ensures successful == Having(statuses, true) && failed == Having(statuses, false)
    ensures forall tuple :: multiset(successful)[tuple] == |Positions(statuses, tuple, true)|
    ensures forall tuple :: multiset(failed)[tuple] == |Positions(statuses, tuple, false)|
  {
    successful, failed := [], [];
    for i := 0 to |statuses|
      invariant successful == Having(statuses[..i], true) && failed == Having(statuses[..i], false)
    {
      assert statuses[..i + 1][..i] == statuses[..i];
      if statuses[i].success {
        successful := successful + [statuses[i].tuple];
      } else {
        failed := failed + [statuses[i].tuple];
      }
    }
    assert statuses[..|statuses|] == statuses;
    forall tuple
      ensures multiset(successful)[tuple] == |Positions(statuses, tuple, true)|
      ensures multiset(failed)[tuple] == |Positions(statuses, tuple, false)|
    {
      HavingCounts(statuses, tuple, true);
      HavingCounts(statuses, tuple, false);
    }
  }

  /** What a reply says of its tuples; a call that errs says nothing of any. */
  function Said<T>(reply: Reply<T>, success: bool): seq<T> {
    match reply
    case Erred => []
    case Answered(writes, deletes) => Having(writes, success) + Having(deletes, success)
  }

  function WithReply<T>(report: Report<T>, reply: Reply<T>): Report<T> {
    Report(report.successful + Said(reply, true), report.failed + Said(reply, false))
  }

  class ImportResponse<T> {
    var successful: seq<T>
    var failed: seq<T>

    ghost function View(): Report<T>
      reads this
    {
      Report(successful, failed)
    }

    constructor ()
      ensures View() == Report([], [])
    {
      successful, failed := [], [];
    }

    /** What a request does when its call has come to an end, the last of it under the mutex. */
    method Record(reply: Reply<T>)
      modifies this
      ensures View() == WithReply(old(View()), reply)
    {
      if reply.Erred? {
        return;
      }
      var successfulWrites, failedWrites := Process(reply.writes);
      var successfulDeletes, failedDeletes := Process(reply.deletes);
      successful := successful + successfulWrites;
      successful := successful + successfulDeletes;
      failed := failed + failedWrites;
      failed := failed + failedDeletes;
      Regroup(old(successful), successfulWrites, successfulDeletes);
      Regroup(old(failed), failedWrites, failedDeletes);
    }
  }

  /** The report after these calls have come to their ends, in this order. */
  function ReportOf<T>(replies: nat -> Reply<T>, finished: seq<nat>): Report<T> {
    if finished == [] then Report([], [])
    else WithReply(ReportOf(replies, finished[..|finished| - 1]), replies(finished[|finished| - 1]))
  }

  /** The statuses of the replies to these calls, one after the other. */
  function Statuses<T>(replies: nat -> Reply<T>, finished: seq<nat>): seq<Status<T>> {
    if finished == [] then []
    else
      var before, reply := finished[..|finished| - 1], replies(finished[|finished| - 1]);
      Statuses(replies, before) + (if reply.Erred? then [] else reply.writes + reply.deletes)
  }

  lemma {:induction false} HavingAppend<T>(a: seq<Status<T>>, b: seq<Status<T>>, success: bool)
    ensures Having(a + b, success) == Having(a, success) + Having(b, success)
  {
    if b == [] {
      assert a + b == a;
    } else {
      var before, last := b[..|b| - 1], b[|b| - 1];
      HavingAppend(a, before, success);
      assert (a + b)[..|a + b| - 1] == a + before && (a + b)[|a + b| - 1] == last;
    }
  }

  lemma {:induction false} ReportHasStatuses<T>(replies: nat -> Reply<T>, finished: seq<nat>)
    ensures ReportOf(replies, finished).successful == Having(Statuses(replies, finished), true)
    ensures ReportOf(replies, finished).failed == Having(Statuses(replies, finished), false)
  {
    if finished != [] {
      var before, reply := finished[..|finished| - 1], replies(finished[|finished| - 1]);
      ReportHasStatuses(replies, before);
      AppendSaid(Statuses(replies, before), reply, true);
      AppendSaid(Statuses(replies, before), reply, false);
    }
  }

  lemma AppendSaid<T>(before: seq<Status<T>>, reply: Reply<T>, success: bool)
    ensures Having(before + (if reply.Erred? then [] else reply.writes + reply.deletes), success)
         == Having(before, success) + Said(reply, success)
  {
    if reply.Erred? {
      assert before + [] == before;
    } else {
      HavingAppend(before, reply.writes + reply.deletes, success);
      HavingAppend(reply.writes, reply.deletes, success);
    }
  }

  /** In whatever order the calls end, a tuple is reported as successful as often as the replies
      to those that ended state its success, and as failed as often as they state its failure. */
  lemma ReportCounts<T>(replies: nat -> Reply<T>, finished: seq<nat>, tuple: T)
    ensures multiset(ReportOf(replies, finished).successful)[tuple]
         == |Positions(Statuses(replies, finished), tuple, true)|
    ensures multiset(ReportOf(replies, finished).failed)[tuple]
         == |Positions(Statuses(replies, finished), tuple, false)|
  {
    ReportHasStatuses(replies, finished);
    HavingCounts(Statuses(replies, finished), tuple, true);
    HavingCounts(Statuses(replies, finished), tuple, false);
  }

  // ---------- what the replies say altogether ----------

  function AllSaid<T>(replies: nat -> Reply<T>, n: nat, success: bool): (all: seq<seq<T>>)
    ensures |all| == n
  {
    seq(n, k requires 0 <= k < n => Said(replies(k), success))
  }

  lemma {:induction false} ReportHolds<T>(replies: nat -> Reply<T>, n: nat, finished: seq<nat>)
    requires forall i | 0 <= i < |finished| :: finished[i] < n
    ensures multiset(ReportOf(replies, finished).successful) == Bag(AllSaid(replies, n, true), finished)
    ensures multiset(ReportOf(replies, finished).failed) == Bag(AllSaid(replies, n, false), finished)
  {
    if finished != [] {
      var before, k := finished[..|finished| - 1], finished[|finished| - 1];
      ReportHolds(replies, n, before);
    }
  }

  /** A call that does not err answers with one status for each tuple of its request. */
  ghost predicate Answers<T>(request: Request<T, T>, reply: Reply<T>) {
    match reply
    case Erred => request.Sends?
    case Answered(writes, deletes) =>
      && multiset(Tuples(writes)) == multiset(Writes(request))
      && multiset(Tuples(deletes)) == multiset(Deletes(request))
  }

  /** The tuples of the requests whose calls err. */
  function AllUntold<T>(reqs: seq<Request<T, T>>, replies: nat -> Reply<T>): (all: seq<seq<T>>)
    ensures |all| == |reqs|
  {
    seq(|reqs|, k requires 0 <= k < |reqs| => Untold(reqs[k], replies(k)))
  }

  function Untold<T>(request: Request<T, T>, reply: Reply<T>): seq<T> {
    if reply.Erred? then Writes(request) + Deletes(request) else []
  }

  /** Of each tuple of a request either something is said, or its call erred. */
  lemma ToldOrNot<T>(request: Request<T, T>, reply: Reply<T>)
    requires Answers(request, reply)
    ensures multiset(Writes(request)) + multiset(Deletes(request))
         == multiset(Said(reply, true)) + multiset(Said(reply, false))
            + multiset(Untold(request, reply))
  {
    if reply.Answered? {
      EitherOr(reply.writes);
      EitherOr(reply.deletes);
    }
  }

  ghost predicate AllAnswer<T>(reqs: seq<Request<T, T>>, replies: nat -> Reply<T>) {
    forall k: nat | k < |reqs| :: Answers(reqs[k], replies(k))
  }

  lemma {:induction false} BagsToldOrNot<T>(reqs: seq<Request<T, T>>, replies: nat -> Reply<T>, order: seq<nat>)
    requires AllAnswer(reqs, replies) && forall i | 0 <= i < |order| :: order[i] < |reqs|
    ensures var n := |reqs|;
            Bag(AllWrites(reqs), order) + Bag(AllDeletes(reqs), order)
            == Bag(AllSaid(replies, n, true), order) + Bag(AllSaid(replies, n, false), order)
               + Bag(AllUntold(reqs, replies), order)
  {
    if order != [] {
      var before, k := order[..|order| - 1], order[|order| - 1];
      BagsToldOrNot(reqs, replies, before);
      PartsToldOrNot(reqs, replies, k);
      var w, d := AllWrites(reqs), AllDeletes(reqs);
      var s, f, u := AllSaid(replies, |reqs|, true), AllSaid(replies, |reqs|, false), AllUntold(reqs, replies);
      SumsAgree(Bag(w, before), Bag(d, before), Bag(s, before), Bag(f, before), Bag(u, before),
                multiset(w[k]), multiset(d[k]), multiset(s[k]), multiset(f[k]), multiset(u[k]));
    }
  }

  lemma PartsToldOrNot<T>(reqs: seq<Request<T, T>>, replies: nat -> Reply<T>, k: nat)
    requires AllAnswer(reqs, replies) && k < |reqs|
    ensures multiset(AllWrites(reqs)[k]) + multiset(AllDeletes(reqs)[k])
         == multiset(AllSaid(replies, |reqs|, true)[k]) + multiset(AllSaid(replies, |reqs|, false)[k])
            + multiset(AllUntold(reqs, replies)[k])
  {
    AllAt(reqs, k);
    ToldOrNot(reqs[k], replies(k));
  }

  lemma SumsAgree<T>(a: multiset<T>, b: multiset<T>, c: multiset<T>, d: multiset<T>, e: multiset<T>,
                     v: multiset<T>, w: multiset<T>, x: multiset<T>, y: multiset<T>, z: multiset<T>)
    requires a + b == c + d + e && v + w == x + y + z
    ensures a + v + (b + w) == c + x + (d + y) + (e + z)
  {
    assert a + v + (b + w) == a + b + (v + w);
    assert c + x + (d + y) + (e + z) == c + d + e + (x + y + z);
  }

  lemma {:induction false} BagEmptyIff<T>(parts: seq<seq<T>>, order: seq<nat>)
    requires forall i | 0 <= i < |order| :: order[i] < |parts|
    ensures Bag(parts, order) == multiset{} <==> forall k | k in order :: parts[k] == []
  {
    if order != [] {
      var before, last := order[..|order| - 1], order[|order| - 1];
      BagEmptyIff(parts, before);
      assert order == before + [last];
      if parts[last] != [] { assert parts[last][0] in multiset(parts[last]); }
    }
  }

  // ---------- what the caller learns ----------

  /** After a nil return the calls that ended are those that were made. */
  lemma AllFinished<W, D>(
      job: Job, events: seq<Event>, size: nat, writes: seq<W>, deletes: seq<D>, reqs: seq<Request<W, D>>)
    requires size > 0 && Imports(job, size, writes, deletes, reqs) && Run(job, events).pc == Returned(Nil)
    ensures CallsAll(reqs, Finished(job, events))
  {
    CalledOnce(job, events, size, writes, deletes, reqs);
    InvInEveryRun(job, events);
    FinishedInEveryRun(job, events);
    var begun, finished := Run(job, events).begun, Finished(job, events);
    forall k: nat ensures k in finished <==> k in begun {}
    forall i | 0 <= i < |finished| ensures finished[i] < |reqs| { assert finished[i] in begun; }
  }

  /** When the ramp-up of an accepted import returns nil, the caller is told of each write once
      and of each delete that is kept once, as successful or as failed, except for the tuples of
      the requests whose call erred: of those it is told nothing. */
  lemma ImportReports<T>(job: Job, events: seq<Event>, size: nat, writes: seq<T>, deletes: seq<T>,
                         reqs: seq<Request<T, T>>, replies: nat -> Reply<T>)
    requires size > 0 && Imports(job, size, writes, deletes, reqs) && Run(job, events).pc == Returned(Nil)
    requires AllAnswer(reqs, replies)
    ensures CallsAll(reqs, Finished(job, events))
    ensures
      var report, finished := ReportOf(replies, Finished(job, events)), Finished(job, events);
      multiset(writes) + multiset(Kept(deletes, |deletes|, size, size - |writes| % size))
      == multiset(report.successful) + multiset(report.failed) + Bag(AllUntold(reqs, replies), finished)
  {
    var finished := Finished(job, events);
    AllFinished(job, events, size, writes, deletes, reqs);
    ReportHolds(replies, |reqs|, finished);
    CarriedByCalls(size, writes, deletes, reqs, finished);
    BagsToldOrNot(reqs, replies, finished);
  }

  /** So every tuple that is sent is reported if and only if no call errs. */
  lemma AllReportedIff<T>(job: Job, events: seq<Event>, size: nat, writes: seq<T>, deletes: seq<T>,
                          reqs: seq<Request<T, T>>, replies: nat -> Reply<T>)
    requires size > 0 && Imports(job, size, writes, deletes, reqs) && Run(job, events).pc == Returned(Nil)
    requires AllAnswer(reqs, replies)
    ensures
      var report := ReportOf(replies, Finished(job, events));
      multiset(report.successful) + multiset(report.failed)
      == multiset(writes) + multiset(Kept(deletes, |deletes|, size, size - |writes| % size))
      <==> forall k: nat | k < |reqs| && reqs[k].Sends? :: !replies(k).Erred?
  {
    ImportReports(job, events, size, writes, deletes, reqs, replies);
    NothingUntoldIff(size, writes, deletes, reqs, replies, Finished(job, events));
    var report := ReportOf(replies, Finished(job, events));
    AllOrRest(multiset(writes) + multiset(Kept(deletes, |deletes|, size, size - |writes| % size)),
              multiset(report.successful) + multiset(report.failed),
              Bag(AllUntold(reqs, replies), Finished(job, events)));
  }

  lemma AllOrRest<T>(all: multiset<T>, some: multiset<T>, rest: multiset<T>)
    requires all == some + rest
    ensures some == all <==> rest == multiset{}
  {
    if some == all { assert |rest| == |all| - |some|; }
  }

  lemma NothingUntoldIff<T>(size: nat, writes: seq<T>, deletes: seq<T>,
                            reqs: seq<Request<T, T>>, replies: nat -> Reply<T>, finished: seq<nat>)
    requires size > 0 && Built(size, writes, deletes, reqs) && AllAnswer(reqs, replies) && CallsAll(reqs, finished)
    ensures Bag(AllUntold(reqs, replies), finished) == multiset{}
            <==> forall k: nat | k < |reqs| && reqs[k].Sends? :: !replies(k).Erred?
  {
    BagEmptyIff(AllUntold(reqs, replies), finished);
    forall k: nat | k < |reqs| ensures AllUntold(reqs, replies)[k] == [] <==> !replies(k).Erred? {
      assert Answers(reqs[k], replies(k));
    }
  }

  lemma {:induction false} NoneFailed<T>(statuses: seq<Status<T>>)
    requires forall i | 0 <= i < |statuses| :: statuses[i].success
    ensures Having(statuses, false) == []
  {
    if statuses != [] { NoneFailed(statuses[..|statuses| - 1]); }
  }

  lemma {:induction false} AllSuccessful<T>(replies: nat -> Reply<T>, finished: seq<nat>)
    requires forall k: nat | k in finished && replies(k).Answered? :: Succeeds(replies(k))
    ensures ReportOf(replies, finished).failed == []
  {
    if finished != [] {
      var before, k := finished[..|finished| - 1], finished[|finished| - 1];
      assert finished == before + [k];
      AllSuccessful(replies, before);
      if replies(k).Answered? {
        NoneFailed(replies(k).writes);
        NoneFailed(replies(k).deletes);
      }
    }
  }

  /** Every status of the reply is a success. */
  predicate Succeeds<T>(reply: Reply<T>)
    requires reply.Answered?
  {
    && (forall i | 0 <= i < |reply.writes| :: reply.writes[i].success)
    && (forall i | 0 <= i < |reply.deletes| :: reply.deletes[i].success)
  }

  /** An import all of whose calls answer with nothing but successes reports every write, and
      every delete that is kept, as successful, and none as failed. */
  lemma AllSucceeded<T>(job: Job, events: seq<Event>, size: nat, writes: seq<T>, deletes: seq<T>,
                        reqs: seq<Request<T, T>>, replies: nat -> Reply<T>)
    requires size > 0 && Imports(job, size, writes, deletes, reqs) && Run(job, events).pc == Returned(Nil)
    requires AllAnswer(reqs, replies)
    requires forall k: nat | k < |reqs| :: replies(k).Answered? && Succeeds(replies(k))
    ensures
      var report := ReportOf(replies, Finished(job, events));
      && report.failed == []
      && multiset(report.successful)
         == multiset(writes) + multiset(Kept(deletes, |deletes|, size, size - |writes| % size))
  {
    AllReportedIff(job, events, size, writes, deletes, reqs, replies);
    ImportReports(job, events, size, writes, deletes, reqs, replies);
    AllSuccessful(replies, Finished(job, events));
  }
}

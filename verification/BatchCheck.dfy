/** A batch check from the service's endpoint through the client library and back: unique
    ids, batches, replies in any order, and one answer per check. */
module BatchCheck {
  import opened Results
  import opened Sequences

  // ---------- unique correlation ids ----------

  /** The positions whose id has come before. */
  function Repeats(ids: seq<string>): seq<nat> {
    if ids == [] then []
    else
      var before := ids[..|ids| - 1];
      Repeats(before) + (if ids[|ids| - 1] in before then [|ids| - 1] else [])
  }

  /** The issues `UniqueCorrelationIds` reports, one for each position it objects to. */
  method UniqueCorrelationIds(ids: seq<string>) returns (issues: seq<nat>)
    ensures issues == Repeats(ids)
  {
    var seen: set<string> := {};
    issues := [];
    var i := 0;
    while i < |ids|
      invariant i <= |ids|
      invariant forall id :: id in seen <==> id in ids[..i]
      invariant issues == Repeats(ids[..i])
    {
      assert ids[..i + 1][..i] == ids[..i];
      if ids[i] !in seen {
        seen := seen + {ids[i]};
      } else {
        issues := issues + [i];
      }
      i := i + 1;
    }
    assert ids[..|ids|] == ids;
  }

  /** No issue is reported exactly when no two ids are the same. */
  lemma {:induction false} NoIssueIff(ids: seq<string>)
    ensures Repeats(ids) == [] <==> Distinct(ids)
  {
    if ids != [] {
      NoIssueIff(ids[..|ids| - 1]);
      DistinctLast(ids[..|ids| - 1], ids[|ids| - 1]);
      assert ids == ids[..|ids| - 1] + [ids[|ids| - 1]];
    }
  }

  /** The positions reported are those whose id has come before, in order. */
  lemma {:induction false} RepeatsExactly(ids: seq<string>)
    ensures forall p: nat :: p in Repeats(ids) <==> ComesAgain(ids, p)
    ensures forall i, j | 0 <= i < j < |Repeats(ids)| :: Repeats(ids)[i] < Repeats(ids)[j]
  {
    if ids != [] {
      var before, last := ids[..|ids| - 1], ids[|ids| - 1];
      RepeatsExactly(before);
      assert ids == before + [last];
      forall p: nat ensures p in Repeats(ids) <==> ComesAgain(ids, p) { ComesAgainLater(before, last, p); }
      forall i | 0 <= i < |Repeats(before)| ensures Repeats(before)[i] < |before| {
        assert Repeats(before)[i] in Repeats(before);
      }
    }
  }

  ghost predicate ComesAgain(ids: seq<string>, p: nat) {
    p < |ids| && exists q | 0 <= q < p :: ids[q] == ids[p]
  }

  lemma ComesAgainLater(before: seq<string>, last: string, p: nat)
    ensures ComesAgain(before + [last], p) <==> ComesAgain(before, p) || (p == |before| && last in before)
  {
    var ids := before + [last];
    if p < |before| { assert forall q | 0 <= q <= p :: before[q] == ids[q]; }
    if p == |before| { assert forall q | 0 <= q < p :: before[q] == ids[q]; }
  }

  lemma DistinctLast(before: seq<string>, last: string)
    ensures Distinct(before + [last]) <==> Distinct(before) && last !in before
  {
    var ids := before + [last];
    assert forall i | 0 <= i < |before| :: ids[i] == before[i];
    if Distinct(ids) {
      forall i | 0 <= i < |before| ensures before[i] != last { assert ids[i] != ids[|before|]; }
    }
  }

  // ---------- cutting into batches ----------

  function Chunks<T>(s: seq<T>, size: nat): seq<seq<T>>
    requires size > 0
  {
    if s == [] then [] else if |s| <= size then [s] else [s[..size]] + Chunks(s[size..], size)
  }

  /** `chunkArray`: elements are taken off the front of a copy until it is empty. */
  method ChunkArray<T>(input: seq<T>, maxChunkSize: nat) returns (chunks: seq<seq<T>>)
    requires maxChunkSize > 0
    ensures chunks == Chunks(input, maxChunkSize)
  {
    chunks := [];
    var copy := input;
    while |copy| > 0
      invariant chunks + Chunks(copy, maxChunkSize) == Chunks(input, maxChunkSize)
      decreases |copy|
    {
      var n := if |copy| <= maxChunkSize then |copy| else maxChunkSize;
      assert n == |copy| ==> copy[..n] == copy && Chunks(copy[n..], maxChunkSize) == [];
      assert Chunks(copy, maxChunkSize) == [copy[..n]] + Chunks(copy[n..], maxChunkSize);
      chunks := chunks + [copy[..n]];
      copy := copy[n..];
    }
  }

  /** The batches are the checks again when put together, ... */
  lemma {:induction false} ChunksPartition<T>(s: seq<T>, size: nat)
    requires size > 0
    ensures Concat(Chunks(s, size)) == s
  {
    if s == [] {
    } else if |s| <= size {
      assert Chunks(s, size)[1..] == [];
    } else {
      ChunksPartition(s[size..], size);
      FirstChunk(s, size);
    }
  }

  lemma {:induction false} FirstChunk<T>(s: seq<T>, size: nat)
    requires 0 < size < |s|
    ensures Concat(Chunks(s, size)) == s[..size] + Concat(Chunks(s[size..], size))
    ensures s[..size] + s[size..] == s
  {
    assert ([s[..size]] + Chunks(s[size..], size))[1..] == Chunks(s[size..], size);
  }

  /** ... none is empty or too large, and all but the last are full. */
  lemma {:induction false} ChunkSizes<T>(s: seq<T>, size: nat, k: nat)
    requires size > 0 && k < |Chunks(s, size)|
    ensures 0 < |Chunks(s, size)[k]| <= size && (k < |Chunks(s, size)| - 1 ==> |Chunks(s, size)[k]| == size)
  {
    if |s| > size && k > 0 {
      assert Chunks(s, size)[k] == Chunks(s[size..], size)[k - 1];
      ChunkSizes(s[size..], size, k - 1);
    }
  }

  // ---------- the library: preparing the items ----------

  /** A check as it is handed to the library; a missing id is the empty one. */
  datatype Check = Check(id: string, tuple: string)

  /** The checks with ids drawn for those that have none. */
  function Filled(checks: seq<Check>, drawn: nat -> string): (filled: seq<Check>)
    ensures |filled| == |checks|
  {
    if checks == [] then []
    else
      var last := checks[|checks| - 1];
      Filled(checks[..|checks| - 1], drawn) + [if last.id == "" then Check(drawn(|checks| - 1), last.tuple) else last]
  }

  /** Each check keeps its tuple, and its id if it has one. */
  lemma {:induction false} FilledAt(checks: seq<Check>, drawn: nat -> string, i: nat)
    requires i < |checks|
    ensures Filled(checks, drawn)[i].tuple == checks[i].tuple
    ensures Filled(checks, drawn)[i].id == if checks[i].id != "" then checks[i].id else drawn(i)
    decreases |checks|
  {
    if i < |checks| - 1 { FilledAt(checks[..|checks| - 1], drawn, i); }
  }

  function Ids(checks: seq<Check>): (ids: seq<string>)
    ensures |ids| == |checks|
  {
    if checks == [] then [] else Ids(checks[..|checks| - 1]) + [checks[|checks| - 1].id]
  }

  /** The first loop of `batchCheck`: missing ids are drawn, and a repeated one is refused
      before anything is sent. */
  method Prepare(checks: seq<Check>, drawn: nat -> string) returns (items: Option<seq<Check>>)
    ensures items.Some? <==> Distinct(Ids(Filled(checks, drawn)))
    ensures items.Some? ==> items.value == Filled(checks, drawn)
  {
    var known: set<string> := {};
    var transformed: seq<Check> := [];
    var i := 0;
    while i < |checks|
      invariant i <= |checks| && transformed == Filled(checks[..i], drawn)
      invariant Distinct(Ids(transformed))
      invariant forall id :: id in known <==> id in Ids(transformed)
    {
      var check := checks[i];
      if check.id == "" {
        check := Check(drawn(i), check.tuple);
      }
      assert checks[..i + 1][..i] == checks[..i];
      assert Filled(checks[..i + 1], drawn) == transformed + [check];
      IdsGrow(transformed, check);
      if check.id in known {
        RepeatFound(checks, drawn, i + 1, Ids(transformed), check.id);
        return None;
      }
      DistinctLast(Ids(transformed), check.id);
      known := known + {check.id};
      transformed := transformed + [check];
      i := i + 1;
    }
    assert checks[..|checks|] == checks;
    return Some(transformed);
  }

  lemma IdsGrow(checks: seq<Check>, check: Check)
    ensures Ids(checks + [check]) == Ids(checks) + [check.id]
  {
    assert (checks + [check])[..|checks|] == checks;
  }

  /** A repeated id among the first checks is one among all. */
  lemma {:induction false} FilledGrows(checks: seq<Check>, drawn: nat -> string, n: nat)
    requires n <= |checks|
    ensures Ids(Filled(checks[..n], drawn)) <= Ids(Filled(checks, drawn))
    decreases |checks|
  {
    if n == |checks| {
      assert checks[..n] == checks;
    } else {
      var last := |checks| - 1;
      FilledGrows(checks[..last], drawn, n);
      assert checks[..last][..n] == checks[..n];
      var rest := Filled(checks[..last], drawn);
      IdsGrow(rest, Filled(checks, drawn)[|rest|]);
      assert Filled(checks, drawn) == rest + [Filled(checks, drawn)[|rest|]];
    }
  }

  lemma RepeatFound(checks: seq<Check>, drawn: nat -> string, n: nat, before: seq<string>, id: string)
    requires n <= |checks| && Ids(Filled(checks[..n], drawn)) == before + [id] && id in before
    ensures !Distinct(Ids(Filled(checks, drawn)))
  {
    FilledGrows(checks, drawn, n);
    PrefixRepeats(Ids(Filled(checks[..n], drawn)), Ids(Filled(checks, drawn)), before, id);
  }

  lemma PrefixRepeats(prefix: seq<string>, all: seq<string>, before: seq<string>, id: string)
    requires prefix <= all && prefix == before + [id] && id in before
    ensures !Distinct(all)
  {
    var p :| 0 <= p < |before| && before[p] == id;
    assert prefix[p] == all[p] && prefix[|before|] == all[|before|];
  }

  lemma {:induction false} NothingToDraw(checks: seq<Check>, drawn: nat -> string)
    requires forall i | 0 <= i < |checks| :: checks[i].id != ""
    ensures Filled(checks, drawn) == checks
  {
    if checks != [] {
      NothingToDraw(checks[..|checks| - 1], drawn);
      assert checks == checks[..|checks| - 1] + [checks[|checks| - 1]];
    }
  }

  // ---------- the library: collecting the replies ----------

  datatype CheckError = CheckError(message: string, inputError: string, internalError: string)
  datatype Reply = Reply(allowed: bool, error: Option<CheckError>)

  /** One entry of the object OpenFGA answers a batch with. */
  datatype Entry = Entry(id: string, reply: Reply)

  /** The entries for ids that were asked about. */
  function Known(entries: seq<Entry>, ids: set<string>): seq<Entry> {
    if entries == [] then []
    else
      var last := entries[|entries| - 1];
      Known(entries[..|entries| - 1], ids) + (if last.id in ids then [last] else [])
  }

  /** They are taken entry by entry, in order. */
  lemma {:induction false} KnownAppend(a: seq<Entry>, b: seq<Entry>, ids: set<string>)
    ensures Known(a + b, ids) == Known(a, ids) + Known(b, ids)
    ensures |b| == 1 ==> Known(b, ids) == if b[0].id in ids then b else []
    decreases |b|
  {
    if b == [] {
      assert a + b == a;
    } else {
      var before, last := b[..|b| - 1], b[|b| - 1];
      KnownAppend(a, before, ids);
      assert (a + b)[..|a + b| - 1] == a + before && (a + b)[|a + b| - 1] == last;
      Regroup(Known(a, ids), Known(before, ids), if last.id in ids then [last] else []);
      assert b == before + [last];
    }
  }

  /** The second loop of `batchCheck`, over the replies as they arrive. */
  method Collect(arrivals: seq<seq<Entry>>, ids: set<string>) returns (results: seq<Entry>)
    ensures results == Known(Concat(arrivals), ids)
  {
    results := [];
    var k := 0;
    while k < |arrivals|
      invariant k <= |arrivals|
      invariant results == Known(Concat(arrivals[..k]), ids)
    {
      var response := arrivals[k];
      ghost var before := Concat(arrivals[..k]);
      assert before + response[..0] == before;
      var j := 0;
      while j < |response|
        invariant j <= |response|
        invariant results == Known(before + response[..j], ids)
      {
        KnownGrows(before, response, j, ids);
        if response[j].id in ids {
          results := results + [response[j]];
        }
        j := j + 1;
      }
      assert response[..j] == response && arrivals[..k + 1] == arrivals[..k] + [response];
      ConcatGrows(arrivals[..k], response);
      k := k + 1;
    }
    assert arrivals[..k] == arrivals;
  }

  lemma KnownGrows(before: seq<Entry>, response: seq<Entry>, j: nat, ids: set<string>)
    requires j < |response|
    ensures Known(before + response[..j + 1], ids)
              == Known(before + response[..j], ids) + (if response[j].id in ids then [response[j]] else [])
  {
    var all := before + response[..j + 1];
    assert all[..|all| - 1] == before + response[..j] && all[|all| - 1] == response[j];
  }

  /** The last entry for an id. */
  function LastFor(entries: seq<Entry>, id: string): Option<Reply> {
    if entries == [] then None
    else if entries[|entries| - 1].id == id then Some(entries[|entries| - 1].reply)
    else LastFor(entries[..|entries| - 1], id)
  }

  lemma {:induction false} LastForKnown(entries: seq<Entry>, ids: set<string>, id: string)
    requires id in ids
    ensures LastFor(Known(entries, ids), id) == LastFor(entries, id)
  {
    if entries != [] {
      var before, last := entries[..|entries| - 1], entries[|entries| - 1];
      LastForKnown(before, ids, id);
      var known := Known(before, ids);
      if last.id in ids { assert (known + [last])[..|known|] == known; } else { assert known + [] == known; }
    }
  }

  lemma {:induction false} LastForConcat(a: seq<Entry>, b: seq<Entry>, id: string)
    ensures LastFor(a + b, id) == if LastFor(b, id).Some? then LastFor(b, id) else LastFor(a, id)
  {
    if b == [] {
      assert a + b == a;
    } else {
      LastForConcat(a, b[..|b| - 1], id);
      assert (a + b)[..|a + b| - 1] == a + b[..|b| - 1];
    }
  }

  lemma {:induction false} LastForNone(entries: seq<Entry>, id: string)
    ensures LastFor(entries, id).None? <==> forall i | 0 <= i < |entries| :: entries[i].id != id
  {
    if entries != [] { LastForNone(entries[..|entries| - 1], id); }
  }

  // ---------- the service: one answer per check ----------

  datatype Answer = Decision(id: string, allowed: bool) | Problem(id: string, text: string)

  function ErrorText(e: CheckError): string {
    if e.message != "" then e.message
    else if e.inputError != "" then e.inputError
    else if e.internalError != "" then e.internalError
    else "check failed"
  }

  /** What the client is told about a check, given OpenFGA's reply to it, if there is one. */
  function AnswerFor(id: string, reply: Option<Reply>): Answer {
    match reply
    case None => Problem(id, "no result from OpenFGA")
    case Some(r) => if r.error.Some? then Problem(id, ErrorText(r.error.value)) else Decision(id, r.allowed)
  }

  /** The entry at a position is the last one for an id. */
  ghost predicate IsLast(entries: seq<Entry>, p: nat, id: string) {
    p < |entries| && entries[p].id == id && forall q | p < q < |entries| :: entries[q].id != id
  }

  ghost predicate FirstNonEmpty(texts: seq<string>, text: string) {
    exists i | 0 <= i < |texts| :: texts[i] == text != "" && forall j | 0 <= j < i :: texts[j] == ""
  }

  /** What the client learns about a check from the entries, in the order they came: the
      decision of the last entry for its id, unless that carries an error, whose first text it
      is told, or there is none. */
  ghost predicate Told(id: string, entries: seq<Entry>, a: Answer) {
    && a.id == id
    && (a.Decision? <==> exists p: nat :: IsLast(entries, p, id) && entries[p].reply.error.None?)
    && (forall p: nat | IsLast(entries, p, id) :: ToldByEntry(entries[p].reply, a))
    && ((forall i | 0 <= i < |entries| :: entries[i].id != id) ==> a == Problem(id, "no result from OpenFGA"))
  }

  ghost predicate ToldByEntry(reply: Reply, a: Answer) {
    match reply.error
    case None => a.Decision? && a.allowed == reply.allowed
    case Some(e) => a.Problem? && FirstNonEmpty([e.message, e.inputError, e.internalError, "check failed"], a.text)
  }

  lemma {:induction false} LastForIsLast(entries: seq<Entry>, id: string)
    ensures LastFor(entries, id).Some? ==>
              exists p: nat :: IsLast(entries, p, id) && entries[p].reply == LastFor(entries, id).value
    ensures forall p: nat | IsLast(entries, p, id) :: LastFor(entries, id) == Some(entries[p].reply)
  {
    if entries != [] {
      var before, last := entries[..|entries| - 1], |entries| - 1;
      if entries[last].id == id {
        assert IsLast(entries, last, id);
      } else {
        LastForIsLast(before, id);
        assert entries == before + [entries[last]];
        forall p: nat ensures IsLast(entries, p, id) <==> IsLast(before, p, id) {
          OtherIsNotLast(before, entries[last], p, id);
        }
        if LastFor(before, id).Some? {
          var p: nat :| IsLast(before, p, id) && before[p].reply == LastFor(before, id).value;
          assert IsLast(entries, p, id);
        }
      }
    }
  }

  lemma OtherIsNotLast(before: seq<Entry>, e: Entry, p: nat, id: string)
    requires e.id != id
    ensures IsLast(before + [e], p, id) <==> IsLast(before, p, id)
  {
    if IsLast(before + [e], p, id) {
      forall q | p < q < |before| ensures before[q].id != id { assert (before + [e])[q] == before[q]; }
    }
  }

  lemma ErrorTextIsFirst(e: CheckError)
    ensures FirstNonEmpty([e.message, e.inputError, e.internalError, "check failed"], ErrorText(e))
  {
    var texts := [e.message, e.inputError, e.internalError, "check failed"];
    var i := if e.message != "" then 0 else if e.inputError != "" then 1 else if e.internalError != "" then 2 else 3;
    assert texts[i] == ErrorText(e);
  }

  lemma AnswerIsTold(id: string, entries: seq<Entry>)
    ensures Told(id, entries, AnswerFor(id, LastFor(entries, id)))
  {
    LastForIsLast(entries, id);
    LastForNone(entries, id);
    var a := AnswerFor(id, LastFor(entries, id));
    forall p: nat | IsLast(entries, p, id) ensures ToldByEntry(entries[p].reply, a) {
      if entries[p].reply.error.Some? { ErrorTextIsFirst(entries[p].reply.error.value); }
    }
  }

  /** `batchCheck` of the service, after the call: a table of the results by id, and an answer
      for each check in the order of the request. */
  method Answers(checks: seq<Check>, results: seq<Entry>) returns (answers: seq<Answer>)
    ensures |answers| == |checks|
    ensures forall i | 0 <= i < |checks| :: answers[i] == AnswerFor(checks[i].id, LastFor(results, checks[i].id))
    ensures forall i | 0 <= i < |checks| :: Told(checks[i].id, results, answers[i])
  {
    var byId: map<string, Reply> := map[];
    var k := 0;
    while k < |results|
      invariant k <= |results|
      invariant forall id :: LastFor(results[..k], id) == if id in byId then Some(byId[id]) else None
    {
      assert results[..k + 1][..k] == results[..k];
      byId := byId[results[k].id := results[k].reply];
      k := k + 1;
    }
    assert results[..k] == results;
    answers := [];
    var i := 0;
    while i < |checks|
      invariant i == |answers| <= |checks|
      invariant forall j | 0 <= j < i :: answers[j] == AnswerFor(checks[j].id, LastFor(results, checks[j].id))
    {
      var id := checks[i].id;
      answers := answers + [AnswerFor(id, if id in byId then Some(byId[id]) else None)];
      i := i + 1;
    }
    forall j | 0 <= j < |checks| ensures Told(checks[j].id, results, answers[j]) {
      AnswerIsTold(checks[j].id, results);
    }
  }

  // ---------- end to end ----------

  /** How the batches fared: OpenFGA's reply to each, or None if its call failed. */
  type Upstream = seq<Check> -> Option<seq<Entry>>

  /** The replies in the order they arrive. */
  function Arrivals(batches: seq<seq<Check>>, upstream: Upstream, order: seq<nat>): seq<seq<Entry>>
    requires forall i | 0 <= i < |order| :: order[i] < |batches| && upstream(batches[order[i]]).Some?
  {
    if order == [] then []
    else Arrivals(batches, upstream, order[..|order| - 1]) + [upstream(batches[order[|order| - 1]]).value]
  }

  lemma {:induction false} ArrivalsAt(batches: seq<seq<Check>>, upstream: Upstream, order: seq<nat>, i: nat)
    requires i < |order|
    requires forall j | 0 <= j < |order| :: order[j] < |batches| && upstream(batches[order[j]]).Some?
    ensures |Arrivals(batches, upstream, order)| == |order|
    ensures Some(Arrivals(batches, upstream, order)[i]) == upstream(batches[order[i]])
    decreases |order|
  {
    var last := |order| - 1;
    if last > 0 { ArrivalsAt(batches, upstream, order[..last], if i < last then i else 0); }
  }

  method Receive(batches: seq<seq<Check>>, upstream: Upstream, order: seq<nat>)
    returns (arrivals: Option<seq<seq<Entry>>>)
    requires forall i | 0 <= i < |order| :: order[i] < |batches|
    ensures arrivals.Some? <==> forall i | 0 <= i < |order| :: upstream(batches[order[i]]).Some?
    ensures arrivals.Some? ==> arrivals.value == Arrivals(batches, upstream, order)
  {
    var got: seq<seq<Entry>> := [];
    var i := 0;
    while i < |order|
      invariant 0 <= i <= |order| && forall j | 0 <= j < i :: upstream(batches[order[j]]).Some?
      invariant got == Arrivals(batches, upstream, order[..i])
    {
      var reply := upstream(batches[order[i]]);
      if reply.None? {
        return None;
      }
      assert order[..i + 1][..i] == order[..i];
      got := got + [reply.value];
      i := i + 1;
    }
    assert order[..i] == order;
    return Some(got);
  }

  lemma AllArrive(batches: seq<seq<Check>>, upstream: Upstream, order: seq<nat>)
    requires IsOrder(order, |batches|)
    ensures (forall i | 0 <= i < |order| :: upstream(batches[order[i]]).Some?)
            <==> forall k: nat | k < |batches| :: upstream(batches[k]).Some?
  {
    if forall i | 0 <= i < |order| :: upstream(batches[order[i]]).Some? {
      forall k: nat | k < |batches| ensures upstream(batches[k]).Some? {
        assert k in order;
        var i :| 0 <= i < |order| && order[i] == k;
      }
    }
  }

  /** The whole call for a request that has passed the endpoint's checks: ids are there and
      unique. Whatever the batch size and the order of arrival, the client gets one answer per
      check in the order of its request unless a batch's call failed: what the last entry to
      arrive for its id decides, or why there is no decision. */
  method RunBatchCheck(checks: seq<Check>, size: nat, drawn: nat -> string, upstream: Upstream, order: seq<nat>)
    returns (answers: Option<seq<Answer>>)
    requires size > 0 && (forall i | 0 <= i < |checks| :: checks[i].id != "") && Repeats(Ids(checks)) == []
    requires IsOrder(order, |Chunks(checks, size)|)
    ensures answers.Some? <==> forall k: nat | k < |Chunks(checks, size)| :: upstream(Chunks(checks, size)[k]).Some?
    ensures answers.Some? ==>
              && |answers.value| == |checks|
              && forall i | 0 <= i < |checks| ::
                   Told(checks[i].id, Concat(Arrivals(Chunks(checks, size), upstream, order)), answers.value[i])
  {
    NothingToDraw(checks, drawn);
    NoIssueIff(Ids(checks));
    var items := Prepare(checks, drawn);
    var batches := ChunkArray(items.value, size);
    var arrivals := Receive(batches, upstream, order);
    AllArrive(batches, upstream, order);
    if arrivals.None? {
      return None;
    }
    var ids := set i | 0 <= i < |checks| :: checks[i].id;
    var results := Collect(arrivals.value, ids);
    var all := Answers(checks, results);
    forall i | 0 <= i < |checks| ensures Told(checks[i].id, Concat(arrivals.value), all[i]) {
      LastForKnown(Concat(arrivals.value), ids, checks[i].id);
      AnswerIsTold(checks[i].id, Concat(arrivals.value));
    }
    return Some(all);
  }

  /** OpenFGA answers a batch only about checks that are in it. */
  ghost predicate Honest(batches: seq<seq<Check>>, upstream: Upstream) {
    forall k, e | 0 <= k < |batches| && upstream(batches[k]).Some? && e in upstream(batches[k]).value ::
        e.id in Ids(batches[k])
  }

  lemma {:induction false} LastArrival(batches: seq<seq<Check>>, upstream: Upstream, order: seq<nat>, k: nat,
                                          id: string)
    requires forall i | 0 <= i < |order| :: order[i] < |batches| && upstream(batches[order[i]]).Some?
    requires k < |batches| && upstream(batches[k]).Some?
    requires forall j: nat | j < |batches| && j != k && upstream(batches[j]).Some? ::
        LastFor(upstream(batches[j]).value, id).None?
    ensures LastFor(Concat(Arrivals(batches, upstream, order)), id)
              == if k in order then LastFor(upstream(batches[k]).value, id) else None
    decreases |order|
  {
    if order != [] {
      var before, last := order[..|order| - 1], order[|order| - 1];
      LastArrival(batches, upstream, before, k, id);
      ConcatGrows(Arrivals(batches, upstream, before), upstream(batches[last]).value);
      LastForConcat(Concat(Arrivals(batches, upstream, before)), upstream(batches[last]).value, id);
      assert order == before + [last];
    }
  }

  lemma IdInOneBatch(checks: seq<Check>, size: nat, k: nat, j: nat, id: string)
    requires size > 0 && Distinct(Ids(checks))
    requires k < |Chunks(checks, size)| && j < |Chunks(checks, size)|
    requires id in Ids(Chunks(checks, size)[k]) && id in Ids(Chunks(checks, size)[j])
    ensures k == j
  {
    ChunksPartition(checks, size);
    DistinctAcross(Chunks(checks, size), k, j, id);
  }

  lemma {:induction false} IdsConcat(a: seq<Check>, b: seq<Check>)
    ensures Ids(a + b) == Ids(a) + Ids(b)
  {
    if b == [] {
      assert a + b == a;
    } else {
      IdsConcat(a, b[..|b| - 1]);
      assert (a + b)[..|a + b| - 1] == a + b[..|b| - 1];
    }
  }

  lemma {:induction false} IdInConcat(parts: seq<seq<Check>>, k: nat, id: string)
    requires k < |parts| && id in Ids(parts[k])
    ensures id in Ids(Concat(parts))
  {
    IdsConcat(parts[0], Concat(parts[1..]));
    if k > 0 { IdInConcat(parts[1..], k - 1, id); }
  }

  lemma {:induction false} DistinctAcross(parts: seq<seq<Check>>, k: nat, j: nat, id: string)
    requires Distinct(Ids(Concat(parts))) && k < |parts| && j < |parts|
    requires id in Ids(parts[k]) && id in Ids(parts[j])
    ensures k == j
    decreases |parts|
  {
    FirstApart(parts, id);
    if k > 0 { IdInConcat(parts[1..], k - 1, id); }
    if j > 0 { IdInConcat(parts[1..], j - 1, id); }
    if k > 0 && j > 0 { DistinctAcross(parts[1..], k - 1, j - 1, id); }
  }

  lemma FirstApart(parts: seq<seq<Check>>, id: string)
    requires parts != [] && Distinct(Ids(Concat(parts)))
    ensures Distinct(Ids(Concat(parts[1..])))
    ensures !(id in Ids(parts[0]) && id in Ids(Concat(parts[1..])))
  {
    IdsConcat(parts[0], Concat(parts[1..]));
    DistinctTail(Ids(parts[0]), Ids(Concat(parts[1..])));
    Apart(Ids(parts[0]), Ids(Concat(parts[1..])), id);
  }

  lemma DistinctTail(a: seq<string>, b: seq<string>)
    requires Distinct(a + b)
    ensures Distinct(b)
  {
    forall i, j | 0 <= i < j < |b| ensures b[i] != b[j] {
      assert (a + b)[|a| + i] == b[i] && (a + b)[|a| + j] == b[j];
    }
  }

  lemma Apart(a: seq<string>, b: seq<string>, id: string)
    requires Distinct(a + b)
    ensures !(id in a && id in b)
  {
    forall i, j | 0 <= i < |a| && 0 <= j < |b| ensures a[i] != b[j] {
      assert (a + b)[i] == a[i] && (a + b)[|a| + j] == b[j];
    }
  }

  /** With an OpenFGA that answers about the checks it was sent, the order of arrival does not
      matter: what counts for a check is the reply to the one batch that holds it. */
  lemma ArrivalOrderIsIrrelevant(checks: seq<Check>, size: nat, upstream: Upstream, order: seq<nat>, k: nat, id: string)
    requires size > 0 && Distinct(Ids(checks)) && Honest(Chunks(checks, size), upstream)
    requires IsOrder(order, |Chunks(checks, size)|)
    requires forall j: nat | j < |Chunks(checks, size)| :: upstream(Chunks(checks, size)[j]).Some?
    requires k < |Chunks(checks, size)| && id in Ids(Chunks(checks, size)[k])
    ensures LastFor(Concat(Arrivals(Chunks(checks, size), upstream, order)), id)
        == LastFor(upstream(Chunks(checks, size)[k]).value, id)
  {
    var batches := Chunks(checks, size);
    forall j: nat | j < |batches| && j != k && upstream(batches[j]).Some?
      ensures LastFor(upstream(batches[j]).value, id).None?
    {
      var entries := upstream(batches[j]).value;
      LastForNone(entries, id);
      forall i | 0 <= i < |entries| ensures entries[i].id != id {
        assert entries[i] in entries;
        if entries[i].id == id { IdInOneBatch(checks, size, k, j, id); }
      }
    }
    LastArrival(batches, upstream, order, k, id);
  }
}

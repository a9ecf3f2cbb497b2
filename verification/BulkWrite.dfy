/** The library's non-transactional write: chunks sent in parallel, answered in any order,
    and a status for every tuple. */
module BulkWrite {
  import opened Results
  import opened Sequences
  import opened BatchCheck

  /** How the request for a chunk ends. A failed one is reported tuple by tuple; only a failed
      authentication ends the whole write. */
  datatype Fate = Stored | Rejected | Unauthorized

  datatype Single<T> = Single(key: T, success: bool)

  function Report<T>(chunk: seq<T>, success: bool): seq<Single<T>> {
    if chunk == [] then [] else Report(chunk[..|chunk| - 1], success) + [Single(chunk[|chunk| - 1], success)]
  }

  /** What is reported for the chunks in the order in which they are answered. The k-th chunk
      has its own fate, whatever it holds. */
  function Reports<T>(chunks: seq<seq<T>>, fate: nat -> Fate, order: seq<nat>): seq<Single<T>>
    requires forall i | 0 <= i < |order| :: order[i] < |chunks|
  {
    if order == [] then []
    else
      var k := order[|order| - 1];
      Reports(chunks, fate, order[..|order| - 1]) + Report(chunks[k], fate(k).Stored?)
  }

  /** One of the two loops of `write`, over the writes or over the deletes. */
  method SendChunks<T>(tuples: seq<T>, maxPerChunk: nat, fate: nat -> Fate, order: seq<nat>)
    returns (r: Option<seq<Single<T>>>)
    requires maxPerChunk > 0 && IsOrder(order, |Chunks(tuples, maxPerChunk)|)
    ensures r.Some? <==> forall k: nat | k < |Chunks(tuples, maxPerChunk)| :: !fate(k).Unauthorized?
    ensures r.Some? ==> r.value == Reports(Chunks(tuples, maxPerChunk), fate, order)
  {
    var responses: seq<Single<T>> := [];
    var chunks := ChunkArray(tuples, maxPerChunk);
    var i := 0;
    while i < |order|
      invariant 0 <= i <= |order| && forall j | 0 <= j < i :: !fate(order[j]).Unauthorized?
      invariant responses == Reports(chunks, fate, order[..i])
    {
      var k := order[i];
      if fate(k).Unauthorized? {
        return None;
      }
      assert order[..i + 1][..i] == order[..i];
      responses := responses + Report(chunks[k], fate(k).Stored?);
      i := i + 1;
    }
    assert order[..i] == order;
    NoneUnauthorized(fate, order, |chunks|);
    return Some(responses);
  }

  lemma NoneUnauthorized(fate: nat -> Fate, order: seq<nat>, n: nat)
    requires IsOrder(order, n) && forall j | 0 <= j < |order| :: !fate(order[j]).Unauthorized?
    ensures forall k: nat | k < n :: !fate(k).Unauthorized?
  {
    forall k: nat | k < n ensures !fate(k).Unauthorized? {
      assert k in order;
      var j :| 0 <= j < |order| && order[j] == k;
    }
  }

  // ---------- every tuple is reported ----------

  function Keys<T>(singles: seq<Single<T>>): multiset<T> {
    if singles == [] then multiset{} else Keys(singles[..|singles| - 1]) + multiset{singles[|singles| - 1].key}
  }

  lemma {:induction false} KeysConcat<T>(a: seq<Single<T>>, b: seq<Single<T>>)
    ensures Keys(a + b) == Keys(a) + Keys(b)
  {
    if b == [] {
      assert a + b == a;
    } else {
      var before, last := b[..|b| - 1], b[|b| - 1];
      KeysConcat(a, before);
      assert (a + b)[..|a + b| - 1] == a + before && (a + b)[|a + b| - 1] == last;
      SumRegroup(Keys(a), Keys(before), multiset{last.key});
    }
  }

  lemma SumRegroup<T>(a: multiset<T>, b: multiset<T>, c: multiset<T>)
    ensures a + b + c == a + (b + c)
  {
  }

  lemma {:induction false} ReportKeys<T>(chunk: seq<T>, success: bool)
    ensures Keys(Report(chunk, success)) == multiset(chunk)
  {
    if chunk != [] {
      var before, last := chunk[..|chunk| - 1], chunk[|chunk| - 1];
      ReportKeys(before, success);
      assert chunk == before + [last];
      var singles := Report(before, success);
      assert (singles + [Single(last, success)])[..|singles|] == singles;
    }
  }

  lemma {:induction false} ReportsKeys<T>(chunks: seq<seq<T>>, fate: nat -> Fate, order: seq<nat>)
    requires forall i | 0 <= i < |order| :: order[i] < |chunks|
    ensures Keys(Reports(chunks, fate, order)) == Bag(chunks, order)
  {
    if order != [] {
      var before, k := order[..|order| - 1], order[|order| - 1];
      ReportsKeys(chunks, fate, before);
      KeysConcat(Reports(chunks, fate, before), Report(chunks[k], fate(k).Stored?));
      ReportKeys(chunks[k], fate(k).Stored?);
    }
  }

  lemma EveryChunkReported<T>(chunks: seq<seq<T>>, fate: nat -> Fate, order: seq<nat>)
    requires IsOrder(order, |chunks|)
    ensures Keys(Reports(chunks, fate, order)) == multiset(Concat(chunks))
  {
    ReportsKeys(chunks, fate, order);
    BagOfAll(chunks, order, |chunks|);
    assert chunks[..|chunks|] == chunks;
  }

  /** Nothing is lost and nothing reported twice: in whatever order the chunks are answered and
      however each of them fares, the tuples reported are exactly those passed in. */
  lemma EveryTupleReported<T>(tuples: seq<T>, maxPerChunk: nat, fate: nat -> Fate, order: seq<nat>)
    requires maxPerChunk > 0 && IsOrder(order, |Chunks(tuples, maxPerChunk)|)
    ensures Keys(Reports(Chunks(tuples, maxPerChunk), fate, order)) == multiset(tuples)
  {
    ChunksPartition(tuples, maxPerChunk);
    EveryChunkReported(Chunks(tuples, maxPerChunk), fate, order);
  }

  // ---------- each with the fate of its own chunk ----------

  /** The tuple at a position of a chunk. */
  datatype Place = Place(chunk: nat, position: nat)

  function PlacesIn(chunk: nat, size: nat): (places: seq<Place>)
    ensures |places| == size
  {
    if size == 0 then [] else PlacesIn(chunk, size - 1) + [Place(chunk, size - 1)]
  }

  /** The tuples the reports are about, in the order of the reports. */
  function Places<T>(chunks: seq<seq<T>>, order: seq<nat>): seq<Place>
    requires forall i | 0 <= i < |order| :: order[i] < |chunks|
  {
    if order == [] then []
    else Places(chunks, order[..|order| - 1]) + PlacesIn(order[|order| - 1], |chunks[order[|order| - 1]]|)
  }

  lemma {:induction false} PlacesInAt(chunk: nat, size: nat, q: nat)
    requires q < size
    ensures PlacesIn(chunk, size)[q] == Place(chunk, q)
  {
    if q < size - 1 { PlacesInAt(chunk, size - 1, q); }
  }

  lemma {:induction false} ReportAt<T>(chunk: seq<T>, success: bool, q: nat)
    requires q < |chunk|
    ensures |Report(chunk, success)| == |chunk| && Report(chunk, success)[q] == Single(chunk[q], success)
    decreases |chunk|
  {
    ReportLength(chunk[..|chunk| - 1], success);
    if q < |chunk| - 1 { ReportAt(chunk[..|chunk| - 1], success, q); }
  }

  lemma {:induction false} ReportLength<T>(chunk: seq<T>, success: bool)
    ensures |Report(chunk, success)| == |chunk|
  {
    if chunk != [] { ReportLength(chunk[..|chunk| - 1], success); }
  }

  lemma {:induction false} ReportsLength<T>(chunks: seq<seq<T>>, fate: nat -> Fate, order: seq<nat>)
    requires forall i | 0 <= i < |order| :: order[i] < |chunks|
    ensures |Reports(chunks, fate, order)| == |Places(chunks, order)|
  {
    if order != [] {
      var k := order[|order| - 1];
      ReportsLength(chunks, fate, order[..|order| - 1]);
      ReportLength(chunks[k], fate(k).Stored?);
    }
  }

  /** A report is about the tuple at its place, and says how the chunk of that place fared. */
  ghost predicate ReportsOn<T>(chunks: seq<seq<T>>, fate: nat -> Fate, place: Place, s: Single<T>) {
    && place.chunk < |chunks| && place.position < |chunks[place.chunk]|
    && s == Single(chunks[place.chunk][place.position], fate(place.chunk).Stored?)
  }

  lemma {:induction false} ReportsAt<T>(chunks: seq<seq<T>>, fate: nat -> Fate, order: seq<nat>, p: nat)
    requires (forall i | 0 <= i < |order| :: order[i] < |chunks|) && p < |Reports(chunks, fate, order)|
    ensures p < |Places(chunks, order)|
    ensures ReportsOn(chunks, fate, Places(chunks, order)[p], Reports(chunks, fate, order)[p])
  {
    var before, k := order[..|order| - 1], order[|order| - 1];
    ReportsLength(chunks, fate, order);
    ReportsLength(chunks, fate, before);
    ReportLength(chunks[k], fate(k).Stored?);
    var n := |Reports(chunks, fate, before)|;
    if p < n {
      ReportsAt(chunks, fate, before, p);
    } else {
      ReportAt(chunks[k], fate(k).Stored?, p - n);
      PlacesInAt(k, |chunks[k]|, p - n);
    }
  }

  lemma {:induction false} PlacesInExactly(chunk: nat, size: nat, place: Place)
    ensures place in PlacesIn(chunk, size) <==> place.chunk == chunk && place.position < size
  {
    if size > 0 { PlacesInExactly(chunk, size - 1, place); }
  }

  lemma {:induction false} PlacesExactly<T>(chunks: seq<seq<T>>, order: seq<nat>, place: Place)
    requires forall i | 0 <= i < |order| :: order[i] < |chunks|
    ensures place in Places(chunks, order)
            <==> place.chunk in order && place.chunk < |chunks| && place.position < |chunks[place.chunk]|
  {
    if order != [] {
      var before, k := order[..|order| - 1], order[|order| - 1];
      PlacesExactly(chunks, before, place);
      PlacesInExactly(k, |chunks[k]|, place);
      assert order == before + [k];
    }
  }

  lemma {:induction false} PlacesDistinct<T>(chunks: seq<seq<T>>, order: seq<nat>)
    requires Distinct(order) && forall i | 0 <= i < |order| :: order[i] < |chunks|
    ensures Distinct(Places(chunks, order))
  {
    if order != [] {
      var before, k := order[..|order| - 1], order[|order| - 1];
      PlacesDistinct(chunks, before);
      var a, b := Places(chunks, before), PlacesIn(k, |chunks[k]|);
      forall i | 0 <= i < |a| ensures a[i].chunk != k {
        PlacesExactly(chunks, before, a[i]);
        assert a[i] in a;
      }
      forall j | 0 <= j < |b| ensures b[j] == Place(k, j) { PlacesInAt(k, |chunks[k]|, j); }
    }
  }

  /** There is one report for each tuple of each chunk, about that very tuple, and it says
      whether the chunk the tuple was sent in was stored. That holds of equal tuples in
      different chunks as of any others. */
  lemma StatusIsTheChunks<T>(chunks: seq<seq<T>>, fate: nat -> Fate, order: seq<nat>)
    requires IsOrder(order, |chunks|)
    ensures |Reports(chunks, fate, order)| == |Places(chunks, order)| && Distinct(Places(chunks, order))
    ensures forall p | 0 <= p < |Places(chunks, order)| ::
              ReportsOn(chunks, fate, Places(chunks, order)[p], Reports(chunks, fate, order)[p])
    ensures forall k: nat, q: nat | k < |chunks| && q < |chunks[k]| :: Place(k, q) in Places(chunks, order)
  {
    ReportsLength(chunks, fate, order);
    PlacesDistinct(chunks, order);
    forall p: nat | p < |Places(chunks, order)|
      ensures ReportsOn(chunks, fate, Places(chunks, order)[p], Reports(chunks, fate, order)[p])
    {
      ReportsAt(chunks, fate, order, p);
    }
    forall k: nat, q: nat | k < |chunks| && q < |chunks[k]| ensures Place(k, q) in Places(chunks, order) {
      PlacesExactly(chunks, order, Place(k, q));
    }
  }
}

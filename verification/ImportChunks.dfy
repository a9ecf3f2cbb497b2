/** Cutting an import's writes and deletes into requests: which tuples the requests carry, and
    which they do not. */
module ImportChunks {
  import opened Results
  import opened Sequences
  import opened RampSchedule
  import opened Dispatcher

  /** s[start:end] with the bounds brought inside the list. */
  function Clip<T>(s: seq<T>, start: nat, end: nat): seq<T>
    requires start <= end
  {
    if start >= |s| then [] else if end > |s| then s[start..] else s[start..end]
  }

  // ---------- what one chunk holds ----------

  function WriteChunk<W>(index: nat, size: nat, writes: seq<W>): seq<W> {
    Clip(writes, index * size, index * size + size)
  }

  /** Chunks full of writes hold no deletes; the j-th chunk after those starts at position
      j * size of the deletes, and leaves off as many as there are writes in the one chunk the
      two share. */
  function DeleteChunk<D>(index: nat, size: nat, written: nat, deletes: seq<D>): seq<D>
    requires size > 0
  {
    if index < written / size then [] else Block(index - written / size, size, size - written % size, deletes)
  }

  /** The first `room` elements of the k-th block of `size`. */
  function Block<D>(k: nat, size: nat, room: nat, s: seq<D>): seq<D> {
    Clip(s, k * size, k * size + room)
  }

  lemma Monotone(a: int, b: int, size: nat)
    requires a <= b
    ensures a * size <= b * size
  {
  }

  lemma Next(k: int, size: nat)
    ensures (k + 1) * size == k * size + size
  {
  }

  lemma Scale(a: int, b: int, size: nat)
    ensures a <= b ==> a * size <= b * size
    ensures a < b ==> a * size + size <= b * size
  {
    Next(a, size);
    if a <= b { Monotone(a, b, size); }
    if a < b { Monotone(a + 1, b, size); }
  }

  lemma FullIff(index: nat, size: nat, written: nat)
    requires size > 0
    ensures index * size + size <= written <==> index < written / size
  {
    var q := written / size;
    assert written == q * size + written % size;
    Scale(index, q, size);
    Scale(q, index, size);
  }

  lemma ClipLength<T>(s: seq<T>, start: nat, end: nat)
    requires start <= end
    ensures |Clip(s, start, end)| <= end - start
    ensures |Clip(s, start, end)| <= if start < |s| then |s| - start else 0
    ensures |Clip(s, start, end)| == end - start <==> start == end || end <= |s|
  {
  }

  /** What is left for a chunk after those full of writes is the remainder, and only once. */
  lemma LeftOver(index: nat, size: nat, written: nat)
    requires size > 0 && index >= written / size
    ensures written - index * size <= written % size
  {
    assert written == written / size * size + written % size;
    Scale(written / size, index, size);
  }

  /** A chunk holds at most `size` tuples. */
  lemma ChunkFits<W, D>(index: nat, size: nat, writes: seq<W>, deletes: seq<D>)
    requires size > 0
    ensures |WriteChunk(index, size, writes)| + |DeleteChunk(index, size, |writes|, deletes)| <= size
  {
    ClipLength(writes, index * size, index * size + size);
    if index >= |writes| / size {
      LeftOver(index, size, |writes|);
      BlockFits(index - |writes| / size, size, size - |writes| % size, deletes);
    }
  }

  lemma BlockFits<D>(k: nat, size: nat, room: nat, s: seq<D>)
    ensures |Block(k, size, room, s)| <= room
  {
    ClipLength(s, k * size, k * size + room);
  }

  /** Slicing where the end may lie beyond the list, as it is done for writes and deletes. */
  method Cut<T>(s: seq<T>, start: nat, end: nat) returns (chunk: seq<T>)
    requires start <= end
    ensures chunk == Clip(s, start, end)
  {
    var stop := end;
    chunk := [];
    if start < |s| {
      if stop > |s| {
        stop := |s|;
      }
      chunk := s[start..stop];
    }
  }

  method CutWrites<W>(index: nat, size: nat, writes: seq<W>) returns (writeChunk: seq<W>)
    requires size > 0
    ensures writeChunk == WriteChunk(index, size, writes)
    ensures |writeChunk| == size <==> index < |writes| / size
  {
    var start := index * size;
    var end := start + size;
    writeChunk := Cut(writes, start, end);
    ClipLength(writes, start, end);
    FullIff(index, size, |writes|);
  }

  method CutDeletes<D>(index: nat, size: nat, written: nat, deletes: seq<D>) returns (deleteChunk: seq<D>)
    requires size > 0 && index >= written / size
    ensures deleteChunk == DeleteChunk(index, size, written, deletes)
  {
    var indexOffset := index - written / size;
    var extraWrites := written % size;
    var start := indexOffset * size;
    var end := start + size - extraWrites;
    deleteChunk := Cut(deletes, start, end);
  }

  /** `getImportChunk` */
  method GetImportChunk<W, D>(index: nat, size: nat, writes: seq<W>, deletes: seq<D>)
    returns (writeChunk: seq<W>, deleteChunk: seq<D>)
    requires size > 0
    ensures writeChunk == WriteChunk(index, size, writes)
    ensures deleteChunk == DeleteChunk(index, size, |writes|, deletes)
    ensures |writeChunk| + |deleteChunk| <= size
  {
    ChunkFits(index, size, writes, deletes);
    writeChunk := CutWrites(index, size, writes);
    deleteChunk := [];
    if |deletes| == 0 || |writeChunk| == size {
      NothingToDelete(index, size, |writes|, deletes);
      return;
    }
    deleteChunk := CutDeletes(index, size, |writes|, deletes);
  }

  lemma NothingToDelete<D>(index: nat, size: nat, written: nat, deletes: seq<D>)
    requires size > 0 && (|deletes| == 0 || index < written / size)
    ensures DeleteChunk(index, size, written, deletes) == []
  {
  }

  // ---------- the requests ----------

  /** A slot of the request list: never set, set to a function that does nothing, or set to
      one that sends a chunk. */
  datatype Request<W, D> = Unset | NoOp | Sends(writes: seq<W>, deletes: seq<D>)

  function NumRequests(size: nat, total: nat): nat
    requires size > 0
  {
    (total + size - 1) / size
  }

  /** The chunk of an index holds nothing. */
  ghost predicate EmptyChunk<W, D>(index: nat, size: nat, writes: seq<W>, deletes: seq<D>)
    requires size > 0
  {
    WriteChunk(index, size, writes) == [] && DeleteChunk(index, size, |writes|, deletes) == []
  }

  /** Every chunk that holds anything has a request that sends it, and no other request sends
      anything. */
  ghost predicate Built<W, D>(size: nat, writes: seq<W>, deletes: seq<D>, reqs: seq<Request<W, D>>)
    requires size > 0
  {
    && |reqs| == NumRequests(size, |writes| + |deletes|)
    && forall k: nat | k < |reqs| ::
         if EmptyChunk(k, size, writes, deletes) then !reqs[k].Sends?
         else reqs[k] == Sends(WriteChunk(k, size, writes), DeleteChunk(k, size, |writes|, deletes))
  }

  /** The loop of `importTuplesWithRampUp`. Leaving it early at an empty chunk never leaves out
      one that is not empty. */
  method BuildRequests<W, D>(size: nat, writes: seq<W>, deletes: seq<D>) returns (reqs: seq<Request<W, D>>)
    requires size > 0
    ensures Built(size, writes, deletes, reqs)
  {
    var numRequests := (|writes| + |deletes| + size - 1) / size;
    var slots := new Request<W, D>[numRequests](_ => Unset);
    var requestIndex := 0;
    while requestIndex < numRequests
      invariant requestIndex <= numRequests
      invariant forall k: nat | k < requestIndex :: !EmptyChunk(k, size, writes, deletes)
                  && slots[k] == Sends(WriteChunk(k, size, writes), DeleteChunk(k, size, |writes|, deletes))
      invariant forall k: nat | requestIndex <= k < numRequests :: slots[k] == Unset
    {
      var writeChunk, deleteChunk := GetImportChunk(requestIndex, size, writes, deletes);
      if |writeChunk| + |deleteChunk| == 0 {
        slots[requestIndex] := NoOp;
        forall k: nat | requestIndex <= k < numRequests ensures EmptyChunk(k, size, writes, deletes) {
          EmptyFromThere(requestIndex, k, size, writes, deletes);
        }
        break;
      }
      slots[requestIndex] := Sends(writeChunk, deleteChunk);
      requestIndex := requestIndex + 1;
    }
    reqs := slots[..];
  }

  lemma EmptyFromThere<W, D>(index: nat, later: nat, size: nat, writes: seq<W>, deletes: seq<D>)
    requires size > 0 && index <= later && EmptyChunk(index, size, writes, deletes)
    ensures EmptyChunk(later, size, writes, deletes)
  {
    var q := |writes| / size;
    NoWritesFromThere(index, later, size, writes);
    NoBlocksFromThere(index - q, later - q, size, size - |writes| % size, deletes);
  }

  lemma NoWritesFromThere<W>(index: nat, later: nat, size: nat, writes: seq<W>)
    requires size > 0 && index <= later && WriteChunk(index, size, writes) == []
    ensures WriteChunk(later, size, writes) == [] && index >= |writes| / size
  {
    Scale(index, later, size);
    ClipStaysEmpty(writes, index * size, later * size, size);
    FullIff(index, size, |writes|);
  }

  lemma NoBlocksFromThere<D>(k: nat, later: nat, size: nat, room: nat, s: seq<D>)
    requires room > 0 && k <= later && Block(k, size, room, s) == []
    ensures Block(later, size, room, s) == []
  {
    Scale(k, later, size);
    ClipStaysEmpty(s, k * size, later * size, room);
  }

  lemma ClipStaysEmpty<T>(s: seq<T>, start: nat, later: nat, room: nat)
    requires room > 0 && Clip(s, start, start + room) == []
    ensures start >= |s|
    ensures later >= start ==> Clip(s, later, later + room) == []
  {
  }

  // ---------- what all the requests carry ----------

  function SentWrites<W>(n: nat, size: nat, writes: seq<W>): seq<W> {
    if n == 0 then [] else SentWrites(n - 1, size, writes) + WriteChunk(n - 1, size, writes)
  }

  function SentDeletes<D>(n: nat, size: nat, written: nat, deletes: seq<D>): seq<D>
    requires size > 0
  {
    if n == 0 then [] else SentDeletes(n - 1, size, written, deletes) + DeleteChunk(n - 1, size, written, deletes)
  }

  lemma {:induction false} SentWritesSoFar<W>(n: nat, size: nat, writes: seq<W>)
    ensures SentWrites(n, size, writes) == if n * size < |writes| then writes[..n * size] else writes
    decreases n
  {
    if n == 0 {
      assert writes[..0] == [];
    } else {
      SentWritesSoFar(n - 1, size, writes);
      assert n * size == (n - 1) * size + size;
      AppendClip(writes, (n - 1) * size, (n - 1) * size + size);
    }
  }

  lemma AppendClip<T>(s: seq<T>, start: nat, end: nat)
    requires start <= end
    ensures (if start < |s| then s[..start] else s) + Clip(s, start, end) == if end < |s| then s[..end] else s
  {
  }

  lemma EnoughRequests(size: nat, total: nat)
    requires size > 0
    ensures NumRequests(size, total) * size >= total
  {
    var sum := total + size - 1;
    assert sum == sum / size * size + sum % size;
  }

  /** The requests together carry every write, once and in order. */
  lemma WritesAllSent<W, D>(size: nat, writes: seq<W>, deletes: seq<D>)
    requires size > 0
    ensures SentWrites(NumRequests(size, |writes| + |deletes|), size, writes) == writes
  {
    EnoughRequests(size, |writes| + |deletes|);
    SentWritesSoFar(NumRequests(size, |writes| + |deletes|), size, writes);
  }

  /** Of the first n deletes, those whose position in their block of `size` is below `room`. */
  function Kept<D>(deletes: seq<D>, n: nat, size: nat, room: int): seq<D>
    requires size > 0 && n <= |deletes|
  {
    if n == 0 then []
    else Kept(deletes, n - 1, size, room) + (if (n - 1) % size < room then [deletes[n - 1]] else [])
  }

  lemma Remainder(k: nat, size: nat, r: nat)
    requires r < size
    ensures (k * size + r) % size == r
  {
    var n := k * size + r;
    var q := n / size;
    assert n == q * size + n % size;
    Scale(q, k, size);
    Scale(k, q, size);
  }

  lemma {:induction false} KeptInBlock<D>(deletes: seq<D>, k: nat, start: nat, r: nat, size: nat, room: nat)
    requires start == k * size && r <= size && size > 0 && start + r <= |deletes|
    ensures Kept(deletes, start + r, size, room)
              == Kept(deletes, start, size, room) + deletes[start..start + Within(r, room)]
    decreases r
  {
    if r > 0 {
      var p := start + r - 1;
      KeptInBlock(deletes, k, start, r - 1, size, room);
      Remainder(k, size, r - 1);
      KeptStep(deletes, p, size, room, r - 1);
      TakenGrows(deletes, start, r - 1, room);
      Regroup(Kept(deletes, start, size, room), deletes[start..start + Within(r - 1, room)],
              if r - 1 < room then [deletes[p]] else []);
    }
  }

  lemma KeptStep<D>(deletes: seq<D>, p: nat, size: nat, room: nat, remainder: nat)
    requires size > 0 && p < |deletes| && p % size == remainder
    ensures Kept(deletes, p + 1, size, room)
              == Kept(deletes, p, size, room) + if remainder < room then [deletes[p]] else []
  {
  }

  lemma TakenGrows<D>(s: seq<D>, start: nat, r: nat, room: nat)
    requires start + r < |s|
    ensures s[start..start + Within(r + 1, room)]
              == s[start..start + Within(r, room)] + if r < room then [s[start + r]] else []
  {
  }

  function Within(n: nat, most: nat): nat { if n <= most then n else most }

  /** A block's share of the kept elements is its first `room`. */
  lemma BlockKept<D>(deletes: seq<D>, k: nat, start: nat, size: nat, room: nat)
    requires start == k * size && room <= size && size > 0
    ensures Kept(deletes, Within(start, |deletes|), size, room) + Clip(deletes, start, start + room)
              == Kept(deletes, Within(start + size, |deletes|), size, room)
  {
    if start < |deletes| {
      var r := Within(size, |deletes| - start);
      KeptInBlock(deletes, k, start, r, size, room);
      assert Within(start + size, |deletes|) == start + r;
    }
  }

  function Blocks<D>(n: nat, size: nat, room: nat, s: seq<D>): seq<D> {
    if n == 0 then [] else Blocks(n - 1, size, room, s) + Block(n - 1, size, room, s)
  }

  lemma {:induction false} BlocksKept<D>(n: nat, size: nat, room: nat, deletes: seq<D>, end: nat)
    requires size > 0 && room <= size && end == n * size
    ensures Blocks(n, size, room, deletes) == Kept(deletes, Within(end, |deletes|), size, room)
  {
    if n > 0 {
      var start := (n - 1) * size;
      BlocksKept(n - 1, size, room, deletes, start);
      Next(n - 1, size);
      BlockKept(deletes, n - 1, start, size, room);
      NextBlock(n - 1, size, room, deletes, start);
    }
  }

  lemma {:induction false} AllBlocks<D>(n: nat, size: nat, room: nat, deletes: seq<D>)
    requires size > 0 && room <= size && n * size >= |deletes|
    ensures Blocks(n, size, room, deletes) == Kept(deletes, |deletes|, size, room)
  {
    BlocksKept(n, size, room, deletes, n * size);
  }

  lemma {:induction false} NextBlock<D>(n: nat, size: nat, room: nat, s: seq<D>, start: nat)
    requires start == n * size
    ensures Blocks(n + 1, size, room, s) == Blocks(n, size, room, s) + Clip(s, start, start + room)
  {
  }

  lemma {:induction false} SentDeletesAreBlocks<D>(
      n: nat, size: nat, written: nat, deletes: seq<D>, q: nat, room: nat)
    requires size > 0 && q == written / size && room == size - written % size
    ensures SentDeletes(n, size, written, deletes) == if n <= q then [] else Blocks(n - q, size, room, deletes)
  {
    if n > 0 {
      SentDeletesAreBlocks(n - 1, size, written, deletes, q, room);
      NextChunk(n - 1, size, written, deletes, q, room);
    }
  }

  lemma {:induction false} NextChunk<D>(index: nat, size: nat, written: nat, deletes: seq<D>, q: nat, room: nat)
    requires size > 0 && q == written / size && room == size - written % size
    ensures if index < q then DeleteChunk(index, size, written, deletes) == []
            else Blocks(index + 1 - q, size, room, deletes)
                 == Blocks(index - q, size, room, deletes) + DeleteChunk(index, size, written, deletes)
  {
  }

  /** The requests together carry the delete at a position if and only if its position within
      its block leaves the room that the left-over writes took in the chunk they share; each
      such delete once, in order. */
  lemma DeletesSentExactly<W, D>(size: nat, writes: seq<W>, deletes: seq<D>)
    requires size > 0
    ensures SentDeletes(NumRequests(size, |writes| + |deletes|), size, |writes|, deletes)
              == Kept(deletes, |deletes|, size, size - |writes| % size)
  {
    var n, q, room := NumRequests(size, |writes| + |deletes|), |writes| / size, size - |writes| % size;
    SentDeletesAreBlocks(n, size, |writes|, deletes, q, room);
    EnoughBlocks(size, |writes|, |deletes|);
    AllBlocks(n - q, size, room, deletes);
  }

  lemma EnoughBlocks(size: nat, written: nat, deleted: nat)
    requires size > 0
    ensures written / size <= NumRequests(size, written + deleted)
    ensures (NumRequests(size, written + deleted) - written / size) * size >= deleted
  {
    var n, q := NumRequests(size, written + deleted), written / size;
    EnoughRequests(size, written + deleted);
    assert written == q * size + written % size;
    Scale(n, q, size);
    assert (n - q) * size == n * size - q * size;
  }

  lemma {:induction false} KeptLength<D>(deletes: seq<D>, n: nat, size: nat, room: nat)
    requires size > 0 && n <= |deletes|
    ensures |Kept(deletes, n, size, room)| <= n
    ensures |Kept(deletes, n, size, room)| == n <==> forall p: nat | p < n :: p % size < room
    ensures |Kept(deletes, n, size, room)| == n ==> Kept(deletes, n, size, room) == deletes[..n]
  {
    if n > 0 { KeptLength(deletes, n - 1, size, room); }
  }

  /** No delete is lost exactly when there are none, or the writes fill whole chunks, or the
      deletes fit into the chunk they share with the last writes. */
  lemma NothingLostIff<W, D>(size: nat, writes: seq<W>, deletes: seq<D>)
    requires size > 0
    ensures SentDeletes(NumRequests(size, |writes| + |deletes|), size, |writes|, deletes) == deletes
            <==> deletes == [] || |writes| % size == 0 || |deletes| <= size - |writes| % size
  {
    var room: nat := size - |writes| % size;
    DeletesSentExactly(size, writes, deletes);
    KeptLength(deletes, |deletes|, size, room);
    assert deletes[..|deletes|] == deletes;
    AllFitIff(|deletes|, size, room);
  }

  lemma AllFitIff(n: nat, size: nat, room: nat)
    requires 0 < room <= size
    ensures (forall p: nat | p < n :: p % size < room) <==> room == size || n <= room
  {
    if room < size && room < n {
      Remainder(0, size, room);
      assert room % size == room;
    } else {
      forall p: nat | p < n ensures p % size < room {
        if room < size { Remainder(0, size, p); }
      }
    }
  }

  // ---------- with the dispatcher ----------

  /** What `validateImportParams` may object to. */
  datatype ParamError = NotPositive | MinAboveMax | TuplesPerWrite | ParallelRequests | TooMany

  function ValidateImportParams(minRps: int, maxRps: int, period: int, size: int, parallel: int,
      total: nat): Option<ParamError> {
    if maxRps != 0 && minRps > maxRps then
      (if minRps <= 0 || maxRps <= 0 || period < 0 then Some(NotPositive) else Some(MinAboveMax))
    else if size < 1 then Some(TuplesPerWrite)
    else if parallel < 1 then Some(ParallelRequests)
    else if size > MAX_INT32 then Some(TuplesPerWrite)
    else if parallel > MAX_INT32 then Some(ParallelRequests)
    else if total > MAX_INT32 then Some(TooMany)
    else None
  }

  /** Which parameters are accepted; a pair of rates that is out of order is the first thing that is
      objected to, and the number of tuples the last. */
  lemma AcceptedIff(minRps: int, maxRps: int, period: int, size: int, parallel: int, total: nat)
    ensures
      var problem := ValidateImportParams(minRps, maxRps, period, size, parallel, total);
      && (problem.None? <==>
            && (maxRps == 0 || minRps <= maxRps)
            && 1 <= size <= 0x7fff_ffff && 1 <= parallel <= 0x7fff_ffff && total <= 0x7fff_ffff)
      && (maxRps != 0 && minRps > maxRps <==> problem == Some(NotPositive) || problem == Some(MinAboveMax))
      && (problem == Some(NotPositive) ==> minRps <= 0 || maxRps <= 0 || period < 0)
      && (problem == Some(MinAboveMax) ==> minRps > 0 && maxRps > 0 && period >= 0)
      && (problem == Some(TooMany) ==> 1 <= size <= 0x7fff_ffff && 1 <= parallel <= 0x7fff_ffff)
      && (problem == Some(TuplesPerWrite) ==> size < 1 || size > 0x7fff_ffff)
      && (problem == Some(ParallelRequests) ==> parallel < 1 || parallel > 0x7fff_ffff)
  {
  }

  lemma FewRequests(size: nat, total: nat)
    requires size > 0
    ensures NumRequests(size, total) <= total
  {
    var sum := total + size - 1;
    assert sum == sum / size * size + sum % size;
    Scale(total + 1, sum / size, size);
    Scale(1, size, total);
    assert (total + 1) * size == total * size + size && total * size == size * total;
  }

  // ---------- end to end ----------

  function Writes<W, D>(request: Request<W, D>): seq<W> { if request.Sends? then request.writes else [] }

  function Deletes<W, D>(request: Request<W, D>): seq<D> { if request.Sends? then request.deletes else [] }

  function AllWrites<W, D>(reqs: seq<Request<W, D>>): (all: seq<seq<W>>)
    ensures |all| == |reqs|
  {
    if reqs == [] then [] else AllWrites(reqs[..|reqs| - 1]) + [Writes(reqs[|reqs| - 1])]
  }

  function AllDeletes<W, D>(reqs: seq<Request<W, D>>): (all: seq<seq<D>>)
    ensures |all| == |reqs|
  {
    if reqs == [] then [] else AllDeletes(reqs[..|reqs| - 1]) + [Deletes(reqs[|reqs| - 1])]
  }

  lemma {:induction false} AllAt<W, D>(reqs: seq<Request<W, D>>, k: nat)
    requires k < |reqs|
    ensures AllWrites(reqs)[k] == Writes(reqs[k]) && AllDeletes(reqs)[k] == Deletes(reqs[k])
    decreases |reqs|
  {
    if k < |reqs| - 1 { AllAt(reqs[..|reqs| - 1], k); }
  }

  /** A request holds what its chunk holds. */
  lemma RequestHoldsChunk<W, D>(size: nat, writes: seq<W>, deletes: seq<D>, reqs: seq<Request<W, D>>, k: nat)
    requires size > 0 && Built(size, writes, deletes, reqs) && k < |reqs|
    ensures AllWrites(reqs)[k] == WriteChunk(k, size, writes)
    ensures AllDeletes(reqs)[k] == DeleteChunk(k, size, |writes|, deletes)
  {
    AllAt(reqs, k);
  }

  lemma {:induction false} WritesHeld<W>(size: nat, writes: seq<W>, held: seq<seq<W>>, n: nat)
    requires n <= |held| && forall k: nat | k < n :: held[k] == WriteChunk(k, size, writes)
    ensures Concat(held[..n]) == SentWrites(n, size, writes)
  {
    if n > 0 {
      WritesHeld(size, writes, held, n - 1);
      ConcatUpTo(held, n - 1);
    }
  }

  lemma {:induction false} DeletesHeld<D>(size: nat, written: nat, deletes: seq<D>, held: seq<seq<D>>, n: nat)
    requires size > 0 && n <= |held| && forall k: nat | k < n :: held[k] == DeleteChunk(k, size, written, deletes)
    ensures Concat(held[..n]) == SentDeletes(n, size, written, deletes)
  {
    if n > 0 {
      DeletesHeld(size, written, deletes, held, n - 1);
      ConcatUpTo(held, n - 1);
    }
  }

  /** The dispatcher is given these requests, with the parameters of the import. */
  ghost predicate Imports<W, D>(job: Job, size: nat, writes: seq<W>, deletes: seq<D>, reqs: seq<Request<W, D>>)
    requires size > 0
  {
    && ValidateImportParams(job.minRps, job.maxRps, job.period, size, job.maxInFlight, |writes| + |deletes|).None?
    && Built(size, writes, deletes, reqs)
    && |job.present| == |reqs| && forall k: nat | k < |reqs| :: job.present[k] == !reqs[k].Unset?
  }

  /** With accepted parameters, when the ramp-up returns nil every chunk that holds anything was
      sent, once. */
  lemma ImportSendsEveryChunk<W, D>(
      job: Job, events: seq<Event>, size: nat, writes: seq<W>, deletes: seq<D>, reqs: seq<Request<W, D>>, k: nat)
    requires size > 0 && Imports(job, size, writes, deletes, reqs) && Run(job, events).pc == Returned(Nil)
    requires k < |reqs| && reqs[k].Sends?
    ensures k in Run(job, events).begun
    ensures forall i, j | 0 <= i < j < |Run(job, events).begun| ::
        Run(job, events).begun[i] != Run(job, events).begun[j]
  {
    RunsAreSafe(job, events);
    NilMeansKnownCalled(job, events, k);
    FewRequests(size, |writes| + |deletes|);
    LengthKept(|job.present|);
  }

  lemma CalledOnce<W, D>(
      job: Job, events: seq<Event>, size: nat, writes: seq<W>, deletes: seq<D>, reqs: seq<Request<W, D>>)
    requires size > 0 && Imports(job, size, writes, deletes, reqs) && Run(job, events).pc == Returned(Nil)
    ensures CallsAll(reqs, Run(job, events).begun)
  {
    var called := Run(job, events).begun;
    RunsAreSafe(job, events);
    forall i | 0 <= i < |called| ensures called[i] < |reqs| { assert called[i] in called; }
    forall k: nat | k < |reqs| && reqs[k].Sends? ensures k in called {
      ImportSendsEveryChunk(job, events, size, writes, deletes, reqs, k);
    }
  }

  /** Requests that are called once each, among them all that send anything. */
  ghost predicate CallsAll<W, D>(reqs: seq<Request<W, D>>, called: seq<nat>) {
    && Distinct(called)
    && (forall i | 0 <= i < |called| :: called[i] < |reqs|)
    && (forall k: nat | k < |reqs| && reqs[k].Sends? :: k in called)
  }

  lemma CalledCover<W, D>(reqs: seq<Request<W, D>>, called: seq<nat>)
    requires CallsAll(reqs, called)
    ensures Covers(AllWrites(reqs), called, |reqs|) && Covers(AllDeletes(reqs), called, |reqs|)
  {
    forall k: nat | k < |reqs| ensures k in called || (AllWrites(reqs)[k] == [] && AllDeletes(reqs)[k] == []) {
      AllAt(reqs, k);
    }
  }

  /** Conservation, end to end: when the ramp-up of an accepted import returns nil, the requests
      that were called carry, together and in whatever order they were called, every write once
      and of the deletes exactly those that are kept, each once. */
  lemma ImportDelivers<W, D>(
      job: Job, events: seq<Event>, size: nat, writes: seq<W>, deletes: seq<D>, reqs: seq<Request<W, D>>)
    requires size > 0 && Imports(job, size, writes, deletes, reqs) && Run(job, events).pc == Returned(Nil)
    ensures
      var called := Run(job, events).begun;
      && Covers(AllWrites(reqs), called, |reqs|) && Covers(AllDeletes(reqs), called, |reqs|)
      && Bag(AllWrites(reqs), called) == multiset(writes)
      && Bag(AllDeletes(reqs), called) == multiset(Kept(deletes, |deletes|, size, size - |writes| % size))
  {
    CalledOnce(job, events, size, writes, deletes, reqs);
    CarriedByCalls(size, writes, deletes, reqs, Run(job, events).begun);
  }

  lemma CarriedByCalls<W, D>(
      size: nat, writes: seq<W>, deletes: seq<D>, reqs: seq<Request<W, D>>, called: seq<nat>)
    requires size > 0 && Built(size, writes, deletes, reqs) && CallsAll(reqs, called)
    ensures Covers(AllWrites(reqs), called, |reqs|) && Covers(AllDeletes(reqs), called, |reqs|)
    ensures Bag(AllWrites(reqs), called) == multiset(writes)
    ensures Bag(AllDeletes(reqs), called) == multiset(Kept(deletes, |deletes|, size, size - |writes| % size))
  {
    var n := |reqs|;
    CalledCover(reqs, called);
    BagOfAll(AllWrites(reqs), called, n);
    BagOfAll(AllDeletes(reqs), called, n);
    forall k: nat | k < n
      ensures AllWrites(reqs)[k] == WriteChunk(k, size, writes)
      ensures AllDeletes(reqs)[k] == DeleteChunk(k, size, |writes|, deletes)
    {
      RequestHoldsChunk(size, writes, deletes, reqs, k);
    }
    WritesHeld(size, writes, AllWrites(reqs), n);
    DeletesHeld(size, |writes|, deletes, AllDeletes(reqs), n);
    WritesAllSent(size, writes, deletes);
    DeletesSentExactly(size, writes, deletes);
  }

  // ---------- whether an import ends ----------

  /** Accepted parameters do not always let the import end. The check that rates are positive
      is only reached when the minimum exceeds the maximum, and importTuples takes the ramp-up
      for every pair of rates that are not zero. Such an import always gets to its end if and
      only if its maximum is positive, and its minimum too unless there is no ramp: a limiter
      whose rate is not positive lets one tick pass and no other. */
  lemma ImportEndsIff(job: Job, size: int, total: nat)
    requires ValidateImportParams(job.minRps, job.maxRps, job.period, size, job.maxInFlight, total).None?
    requires job.minRps != 0 && job.maxRps != 0 && !job.deadline
    ensures AlwaysFinishes(job) <==> job.maxRps >= 1 && (job.minRps >= 1 || job.period <= 0)
  {
    AlwaysFinishesIff(job);
  }

  /** Rates that are accepted and hang the import: whatever happens nothing is ever sent and
      nil never returned, and without a cancellation the dispatcher never comes back. */
  lemma NegativeRatesAccepted(size: nat, parallel: nat, total: nat, job: Job, events: seq<Event>)
    requires 1 <= size <= MAX_INT32 && 1 <= parallel <= MAX_INT32 && total <= MAX_INT32
    requires job.minRps == -1 && job.period == 5 && (job.maxRps == 10 || job.maxRps == -1)
    ensures ValidateImportParams(job.minRps, job.maxRps, job.period, size, parallel, total).None?
    ensures Run(job, events).begun == [] && Run(job, events).pc != Returned(Nil)
    ensures Undisturbed(events) && !job.deadline ==> !Run(job, events).pc.Returned?
  {
    UnpacedNeverReturns(job, events);
  }

  /** The schedule by itself, leaving the limiter's waits aside, gets to any number of requests
      if and only if the maximum is positive. */
  lemma ScheduleReachesIff(minRps: int, maxRps: int, period: int, total: nat)
    requires minRps <= maxRps
    ensures (exists n: nat :: total < Dispatched(minRps, maxRps, period, n)) <==> maxRps >= 1
  {
    if maxRps >= 1 {
      var from: nat := if period < 0 then 0 else period + 1;
      SteadyDispatch(minRps, maxRps, period, from, total + 1);
      assert total < Dispatched(minRps, maxRps, period, from + (total + 1));
    } else {
      forall n: nat ensures !(total < Dispatched(minRps, maxRps, period, n)) {
        NothingDispatched(minRps, maxRps, period, n);
      }
    }
  }

  lemma {:induction false} SteadyDispatch(minRps: int, maxRps: int, period: int, from: nat, more: nat)
    requires maxRps >= 1 && from > period
    ensures Dispatched(minRps, maxRps, period, from + more) >= more
  {
    if more > 0 { SteadyDispatch(minRps, maxRps, period, from, more - 1); }
  }

  lemma {:induction false} NothingDispatched(minRps: int, maxRps: int, period: int, n: nat)
    requires minRps <= maxRps <= 0
    ensures Dispatched(minRps, maxRps, period, n) == 0
  {
    if n > 0 {
      NothingDispatched(minRps, maxRps, period, n - 1);
      RateClimbs(minRps, maxRps, period, n - 1);
    }
  }
}

/** How requests and responses travel between the coordinator and its workers: packing,
    the scatter and gather layouts, and chunked computation. Order is never lost. */
module Distribution {
  import opened Sequences
  import opened Bits

  // ------------------------------------------------------------------------- packing

  const BYTE_SIZE: nat := 256

  function Zeros(n: nat): (r: seq<Byte>)
    ensures |r| == n && forall i | 0 <= i < n :: r[i] == 0
  {
    seq(n, _ => 0)
  }

  /** A byte string in 256-byte cells, the last one filled up with zeros. */
  function Pack(bytes: seq<Byte>): (r: seq<seq<Byte>>)
    ensures forall i | 0 <= i < |r| :: |r[i]| == BYTE_SIZE
    decreases |bytes|
  {
    if bytes == [] then []
    else if |bytes| <= BYTE_SIZE then [bytes + Zeros(BYTE_SIZE - |bytes|)]
    else [bytes[..BYTE_SIZE]] + Pack(bytes[BYTE_SIZE..])
  }

  /** As few cells as hold the bytes, which come first, one by one, and then zeros. */
  method SerializeToPackedVec(bytes: seq<Byte>) returns (r: seq<seq<Byte>>)
    ensures r == Pack(bytes)
    ensures forall i | 0 <= i < |r| :: |r[i]| == 256
    ensures |bytes| <= |Flatten(r)| == 256 * |r| < |bytes| + 256
    ensures forall i | 0 <= i < |Flatten(r)| :: Flatten(r)[i] == if i < |bytes| then bytes[i] else 0
  {
    PackedByteByByte(bytes);
    r := [];
    var rest := bytes;
    while rest != []
      invariant r + Pack(rest) == Pack(bytes)
      decreases |rest|
    {
      var n := if |rest| <= BYTE_SIZE then |rest| else BYTE_SIZE;
      var cell := rest[..n] + Zeros(BYTE_SIZE - n);
      assert n == |rest| ==> rest[..n] == rest && rest[n..] == [];
      assert n == BYTE_SIZE ==> cell == rest[..n];
      assert r + Pack(rest) == (r + [cell]) + Pack(rest[n..]);
      r := r + [cell];
      rest := rest[n..];
    }
  }

  function Padding(n: nat): nat { (BYTE_SIZE - n % BYTE_SIZE) % BYTE_SIZE }

  lemma FlattenCons<T>(a: seq<T>, ss: seq<seq<T>>)
    ensures Flatten([a] + ss) == a + Flatten(ss)
  {
    FlattenAppend([a], ss);
    FlattenOnePart(a);
  }

  lemma FlattenOnePart<T>(a: seq<T>)
    ensures Flatten([a]) == a
  {
    FlattenSnoc([], a);
    assert [] + [a] == [a] && [] + a == a;
  }

  /** Unpacking gives the bytes back, followed by zeros. */
  lemma {:induction false} PackRoundTrip(bytes: seq<Byte>)
    ensures Flatten(Pack(bytes)) == bytes + Zeros(Padding(|bytes|))
    decreases |bytes|
  {
    hide Flatten;
    if bytes == [] {
      NothingPacked();
    } else if |bytes| <= BYTE_SIZE {
      FlattenOnePart(bytes + Zeros(BYTE_SIZE - |bytes|));
    } else {
      var first, rest := bytes[..BYTE_SIZE], bytes[BYTE_SIZE..];
      PackRoundTrip(rest);
      FlattenCons(first, Pack(rest));
      SamePadding(|bytes|);
      hide Padding, Zeros, Pack;
      assert first + rest == bytes;
      assert first + (rest + Zeros(Padding(|rest|))) == first + rest + Zeros(Padding(|rest|));
    }
  }

  /** The packed bytes, position by position: each of the bytes stays where it is. */
  lemma PackedByteByByte(bytes: seq<Byte>)
    ensures |bytes| <= |Flatten(Pack(bytes))| == 256 * |Pack(bytes)| < |bytes| + 256
    ensures forall i | 0 <= i < |Flatten(Pack(bytes))| ::
              Flatten(Pack(bytes))[i] == if i < |bytes| then bytes[i] else 0
  {
    hide Flatten, Pack, Zeros;
    PackRoundTrip(bytes);
    EvenLength(Pack(bytes), 256);
  }

  lemma {:induction false} EvenLength<T>(parts: seq<seq<T>>, n: nat)
    requires forall i | 0 <= i < |parts| :: |parts[i]| == n
    ensures |Flatten(parts)| == n * |parts|
  {
    if parts != [] {
      EvenLength(parts[..|parts| - 1], n);
      assert n * |parts| == n * (|parts| - 1) + n;
    }
  }

  lemma SamePadding(n: nat)
    requires n > BYTE_SIZE
    ensures Padding(n - BYTE_SIZE) == Padding(n)
  {}

  lemma NothingPacked()
    ensures Flatten<Byte>([]) == [] && Zeros(Padding(0)) == []
  {}

  // -------------------------------------------------------------------- partitions

  /** Flattens one part per rank and records where each sits: counts, and displacements by
      an accumulating scan. */
  method ConstructPartition<T>(parts: seq<seq<T>>) returns (flat: seq<T>, counts: seq<nat>, displacements: seq<nat>)
    ensures flat == Flatten(parts) && |counts| == |displacements| == |parts|
    ensures forall i | 0 <= i < |parts| :: counts[i] == |parts[i]| && displacements[i] == |Flatten(parts[..i])|
  {
    counts, displacements := [], [];
    var acc := 0;
    assert parts[..0] == [];
    for i := 0 to |parts|
      invariant |counts| == |displacements| == i
      invariant acc == |Flatten(parts[..i])|
      invariant forall j | 0 <= j < i :: counts[j] == |parts[j]| && displacements[j] == |Flatten(parts[..j])|
    {
      FlattenPrefix(parts, i);
      counts := counts + [|parts[i]|];
      displacements := displacements + [acc];
      acc := acc + |parts[i]|;
    }
    flat := Flatten(parts);
  }

  /** A rank's region holds its own part, and regions do not overlap. */
  lemma Regions<T>(parts: seq<seq<T>>, i: nat, j: nat)
    requires i <= j < |parts|
    ensures var (off, n) := (|Flatten(parts[..i])|, |parts[i]|);
            off + n <= |Flatten(parts)| && Flatten(parts)[off..off + n] == parts[i]
    ensures i < j ==> |Flatten(parts[..i])| + |parts[i]| <= |Flatten(parts[..j])|
  {
    FlattenSlice(parts, i);
    if i < j {
      FlattenPrefix(parts, i);
      assert parts[..j][..i + 1] == parts[..i + 1];
      FlattenPrefix(parts[..j], i + 1);
    }
  }

  // ----------------------------------------------------------------------- chunking

  function Chunks<T>(s: seq<T>, n: nat): (r: seq<seq<T>>)
    requires n > 0
    decreases |s|
  {
    if s == [] then [] else if |s| <= n then [s] else [s[..n]] + Chunks(s[n..], n)
  }

  /** Whole chunks only, as many as fit. */
  function ChunksExact<T>(s: seq<T>, n: nat): (r: seq<seq<T>>)
    requires n > 0
    decreases |s|
  {
    if |s| < n then [] else [s[..n]] + ChunksExact(s[n..], n)
  }

  predicate EachOfSize<T>(parts: seq<seq<T>>, n: nat) {
    forall i | 0 <= i < |parts| :: |parts[i]| == n
  }

  lemma {:induction false} ChunksFlatten<T>(s: seq<T>, n: nat)
    requires n > 0
    ensures Flatten(Chunks(s, n)) == s
    decreases |s|
  {
    hide Flatten;
    if s == [] {
      FlattenNothing<T>();
    } else if |s| <= n {
      FlattenOnePart(s);
    } else {
      ChunksFlatten(s[n..], n);
      FlattenCons(s[..n], Chunks(s[n..], n));
      assert s[..n] + s[n..] == s;
    }
  }

  lemma FlattenNothing<T>()
    ensures Flatten<T>([]) == []
  {}

  /** A multiple of the chunk size is cut into equal chunks. */
  lemma {:induction false} ChunksEven<T>(s: seq<T>, n: nat, k: nat)
    requires n > 0 && |s| == n * k
    ensures |Chunks(s, n)| == k && EachOfSize(Chunks(s, n), n)
    decreases k
  {
    if k > 0 {
      assert n * k == n * (k - 1) + n;
      if k == 1 {
        assert n * k == n;
      } else {
        assert n * (k - 1) >= n * 1 by { Grows(n, k - 1); }
        ChunksEven(s[n..], n, k - 1);
      }
    }
  }

  lemma {:induction false} Grows(n: nat, k: nat)
    requires k > 0
    ensures n * k >= n
  {
    if k > 1 {
      Grows(n, k - 1);
      assert n * k == n * (k - 1) + n;
    }
  }

  /** Cutting a flattened list of equal parts gives the parts back. */
  lemma {:induction false} ExactChunksOfParts<T>(parts: seq<seq<T>>, n: nat)
    requires n > 0 && EachOfSize(parts, n)
    ensures ChunksExact(Flatten(parts), n) == parts
    decreases |parts|
  {
    hide Flatten;
    if parts == [] {
      FlattenNothing<T>();
    } else {
      assert parts == [parts[0]] + parts[1..];
      FlattenCons(parts[0], parts[1..]);
      assert EachOfSize(parts[1..], n);
      ExactChunksOfParts(parts[1..], n);
      var flat := Flatten(parts);
      assert flat[..n] == parts[0] && flat[n..] == Flatten(parts[1..]);
    }
  }

  // -------------------------------------------------------------------- computing

  /** Requests and states paired in order; the longer list's rest is dropped. */
  function ZipMap<R, W, U>(requests: seq<R>, states: seq<W>, f: (R, W) -> U): (r: seq<U>)
    ensures |r| == if |requests| <= |states| then |requests| else |states|
    ensures forall i | 0 <= i < |r| :: r[i] == f(requests[i], states[i])
  {
    if requests == [] || states == [] then []
    else [f(requests[0], states[0])] + ZipMap(requests[1..], states[1..], f)
  }

  /** The chunk lists paired, each pair zipped. */
  function ZipChunks<R, W, U>(rs: seq<seq<R>>, ws: seq<seq<W>>, f: (R, W) -> U): (r: seq<seq<U>>)
  {
    if rs == [] || ws == [] then [] else [ZipMap(rs[0], ws[0], f)] + ZipChunks(rs[1..], ws[1..], f)
  }

  /** Splitting both lists at the same point commutes with zipping. */
  lemma ZipSplit<R, W, U>(requests: seq<R>, states: seq<W>, f: (R, W) -> U, n: nat)
    requires n <= |requests| && n <= |states|
    ensures ZipMap(requests, states, f) == ZipMap(requests[..n], states[..n], f) + ZipMap(requests[n..], states[n..], f)
  {}

  lemma ZipShort<R, W, U>(requests: seq<R>, states: seq<W>, f: (R, W) -> U, n: nat)
    requires n <= |requests| && |states| <= n
    ensures ZipMap(requests, states, f) == ZipMap(requests[..n], states, f)
  {}

  lemma ZipLong<R, W, U>(requests: seq<R>, states: seq<W>, f: (R, W) -> U, n: nat)
    requires |requests| <= n <= |states|
    ensures ZipMap(requests, states, f) == ZipMap(requests, states[..n], f)
  {}

  /** Chunked computation is the plain zip-map, whatever the lengths. */
  lemma {:induction false} ChunkedIsZipMap<R, W, U>(requests: seq<R>, states: seq<W>, f: (R, W) -> U, n: nat)
    requires n > 0
    ensures Flatten(ZipChunks(Chunks(requests, n), Chunks(states, n), f)) == ZipMap(requests, states, f)
    decreases |requests|
  {
    hide Flatten, ZipMap;
    if requests == [] || states == [] {
      NothingZipped(requests, states, f);
      FlattenNothing<U>();
    } else {
      var rs, ws := Chunks(requests, n), Chunks(states, n);
      var r0, w0 := ZipMap(rs[0], ws[0], f), ZipChunks(rs[1..], ws[1..], f);
      FlattenCons(r0, w0);
      if |requests| > n && |states| > n {
        assert rs[1..] == Chunks(requests[n..], n) && ws[1..] == Chunks(states[n..], n);
        ChunkedIsZipMap(requests[n..], states[n..], f, n);
        ZipSplit(requests, states, f, n);
      } else {
        FlattenNothing<U>();
        if |requests| <= n && |states| > n {
          ZipLong(requests, states, f, n);
        } else if |requests| > n {
          ZipShort(requests, states, f, n);
        }
      }
    }
  }

  lemma NothingZipped<R, W, U>(requests: seq<R>, states: seq<W>, f: (R, W) -> U)
    requires requests == [] || states == []
    ensures ZipMap(requests, states, f) == []
  {}

  /** Threads per request and requests per thread. `None` divides by zero. */
  function PoolAndChunkSize(numThreads: nat, numRequests: nat): Option<(nat, nat)> {
    if numThreads == 0 || numRequests == 0 then None
    else Some((if numThreads > numRequests then numThreads / numRequests else 1,
               if numRequests >= numThreads then numRequests / numThreads else 1))
  }

  /** One result list per chunk, in chunk order, then flattened. */
  method ComputeResponses<R, W, U>(numThreads: nat, requests: seq<R>, states: seq<W>, f: (R, W) -> U)
    returns (r: Option<seq<U>>)
    ensures r.Some? <==> numThreads > 0 && requests != []
    ensures r.Some? ==> r.value == ZipMap(requests, states, f)
  {
    var sizes := PoolAndChunkSize(numThreads, |requests|);
    if sizes.None? {
      return None;
    }
    var chunkSize := sizes.value.1;
    ChunkSizePositive(numThreads, |requests|);
    hide Chunks, ZipMap, Flatten;
    var rs, ws := Chunks(requests, chunkSize), Chunks(states, chunkSize);
    var threadResults := [];
    var i := 0;
    while i < |rs| && i < |ws|
      invariant 0 <= i <= |rs| && i <= |ws|
      invariant threadResults + ZipChunks(rs[i..], ws[i..], f) == ZipChunks(rs, ws, f)
    {
      assert rs[i..][1..] == rs[i + 1..] && ws[i..][1..] == ws[i + 1..];
      threadResults := threadResults + [ZipMap(rs[i], ws[i], f)];
      i := i + 1;
    }
    assert threadResults + ZipChunks(rs[i..], ws[i..], f) == threadResults;
    ChunkedIsZipMap(requests, states, f, chunkSize);
    r := Some(Flatten(threadResults));
  }

  lemma ChunkSizePositive(numThreads: nat, numRequests: nat)
    requires numThreads > 0 && numRequests > 0
    ensures PoolAndChunkSize(numThreads, numRequests).value.0 > 0
         && PoolAndChunkSize(numThreads, numRequests).value.1 > 0
  {
    if numRequests >= numThreads {
      QuotientPositive(numRequests, numThreads);
    }
    if numThreads > numRequests {
      QuotientPositive(numThreads, numRequests);
    }
  }

  /** Both are the largest that do not overrun: a chunk a thread when there are enough requests,
      and otherwise one request a chunk, with the threads shared out. */
  lemma EvenShares(numThreads: nat, numRequests: nat)
    requires numThreads > 0 && numRequests > 0
    ensures var (pool, chunk) := PoolAndChunkSize(numThreads, numRequests).value;
            && (numRequests >= numThreads ==>
                  pool == 1 && chunk * numThreads <= numRequests < (chunk + 1) * numThreads)
            && (numRequests < numThreads ==>
                  chunk == 1 && pool * numRequests <= numThreads < (pool + 1) * numRequests)
  {
    DivisionBounds(numRequests, numThreads);
    DivisionBounds(numThreads, numRequests);
    if numRequests == numThreads {
      assert numRequests / numThreads == 1;
    }
  }

  lemma DivisionBounds(a: nat, b: nat)
    requires b > 0
    ensures (a / b) * b <= a < (a / b + 1) * b
  {}

  lemma QuotientPositive(a: nat, b: nat)
    requires a >= b > 0
    ensures a / b > 0
  {}

  // ---------------------------------------------------------------------- end to end

  /** A serialization that tolerates trailing zeros. */
  ghost predicate Serializes<T(!new)>(ser: T -> seq<Byte>, de: seq<Byte> -> T) {
    forall x, n: nat :: de(ser(x) + Zeros(n)) == x
  }

  /** What the worker at rank `i + 1` makes of its scattered region. */
  function Received<T>(parts: seq<seq<seq<Byte>>>, de: seq<Byte> -> T, i: nat): T
    requires i + 1 < |parts|
  {
    var off := |Flatten(parts[..i + 1])|;
    FlattenSlice(parts, i + 1);
    de(Flatten(Flatten(parts)[off..off + |parts[i + 1]|]))
  }

  /** The coordinator's scatter layout: nothing for itself, then one packed item a rank. */
  function ScatterParts<T>(items: seq<T>, ser: T -> seq<Byte>): (r: seq<seq<seq<Byte>>>)
    ensures |r| == |items| + 1
  {
    [[]] + Map((x: T) => Pack(ser(x)), items)
  }

  /** Every worker unpacks exactly its own item. */
  lemma ScatterDelivers<T(!new)>(items: seq<T>, ser: T -> seq<Byte>, de: seq<Byte> -> T, i: nat)
    requires i < |items| && Serializes(ser, de)
    ensures Received(ScatterParts(items, ser), de, i) == items[i]
  {
    hide Flatten, Pack;
    var parts := ScatterParts(items, ser);
    assert parts[i + 1] == Pack(ser(items[i]));
    FlattenSlice(parts, i + 1);
    PackRoundTrip(ser(items[i]));
  }

  /** The gathered buffer: nothing from the coordinator, then one message a rank. */
  method Gather(messages: seq<seq<Byte>>, itemSize: nat) returns (buffer: array<Byte>)
    requires EachOfSize(messages, itemSize)
    ensures fresh(buffer) && buffer[..] == Flatten([[]] + messages)
  {
    hide Flatten;
    ghost var parts := [[]] + messages;
    var blank := [[]] + seq(|messages|, _ => Zeros(itemSize));
    var flat, counts, displacements := ConstructPartition(blank);
    buffer := new Byte[|flat|](i requires 0 <= i < |flat| => flat[i]);
    SameShapeLength(blank, parts);
    assert |flat| == |Flatten(parts)|;
    var r := 0;
    FlattenNothing<Byte>();
    assert parts[..0] == [];
    while r <= |messages|
      invariant 0 <= r <= |parts|
      invariant WrittenSoFar(buffer[..], parts, r)
    {
      SameShapeLength(blank[..r], parts[..r]);
      NextPart(parts, r);
      WriteAt(buffer, displacements[r], if r == 0 then [] else messages[r - 1]);
      r := r + 1;
    }
    assert parts[..r] == parts;
  }

  ghost predicate WrittenSoFar(buffer: seq<Byte>, parts: seq<seq<Byte>>, r: nat)
    requires r <= |parts|
  {
    |Flatten(parts[..r])| <= |buffer| == |Flatten(parts)| && buffer[..|Flatten(parts[..r])|] == Flatten(parts[..r])
  }

  lemma NextPart(parts: seq<seq<Byte>>, r: nat)
    requires r < |parts|
    ensures Flatten(parts[..r + 1]) == Flatten(parts[..r]) + parts[r]
    ensures |Flatten(parts[..r + 1])| <= |Flatten(parts)|
  {
    FlattenPrefix(parts, r);
    FlattenPrefix(parts, r + 1);
  }

  /** One rank's message lands in its region. */
  method WriteAt(buffer: array<Byte>, off: nat, message: seq<Byte>)
    requires off + |message| <= buffer.Length
    modifies buffer
    ensures buffer[..off] == old(buffer[..off])
    ensures buffer[off..off + |message|] == message
    ensures buffer[..off + |message|] == old(buffer[..off]) + message
  {
    for i := 0 to |message|
      invariant buffer[..off] == old(buffer[..off])
      invariant buffer[off..off + i] == message[..i]
    {
      buffer[off + i] := message[i];
    }
    assert message[..|message|] == message;
    assert buffer[..off + |message|] == buffer[..off] + buffer[off..off + |message|];
  }

  /** What all workers together answer, gathered, cut into exact chunks, decoded and
      flattened. */
  function Gathered<U>(answers: seq<seq<U>>, ser: seq<U> -> seq<Byte>, de: seq<Byte> -> seq<U>, itemSize: nat): seq<U>
    requires itemSize > 0
  {
    Flatten(Map(de, ChunksExact(Flatten([[]] + Map(ser, answers)), itemSize)))
  }

  /** Requests chunked over the workers, scattered, computed chunk by chunk, gathered and
      flattened answer the requests in order: result `i` is the answer to request `i`. */
  lemma OrderIsPreserved<R(!new), W, U(!new)>(
    requests: seq<R>, perWorker: nat, numWorkers: nat, states: seq<seq<W>>, f: (R, W) -> U,
    serReq: seq<R> -> seq<Byte>, deReq: seq<Byte> -> seq<R>, serRes: seq<U> -> seq<Byte>, deRes: seq<Byte> -> seq<U>,
    itemSize: nat)
    requires perWorker > 0 && itemSize > 0 && |requests| == perWorker * numWorkers
    requires |states| == numWorkers && EachOfSize(states, perWorker)
    requires Serializes(serReq, deReq) && Serializes(serRes, deRes)
    requires forall a: seq<U> | |a| == perWorker :: |serRes(a)| == itemSize
    ensures |Chunks(requests, perWorker)| == numWorkers
    ensures var parts := ScatterParts(Chunks(requests, perWorker), serReq);
            var answers := seq(numWorkers,
                               i requires 0 <= i < numWorkers => ZipMap(Received(parts, deReq, i), states[i], f));
            Gathered(answers, serRes, deRes, itemSize) == ZipMap(requests, Flatten(states), f)
  {
    hide Flatten, ZipMap, Chunks, ScatterParts, Received;
    ChunksEven(requests, perWorker, numWorkers);
    var chunks := Chunks(requests, perWorker);
    var parts := ScatterParts(chunks, serReq);
    var answers := seq(numWorkers, i requires 0 <= i < numWorkers => ZipMap(Received(parts, deReq, i), states[i], f));
    forall i | 0 <= i < numWorkers ensures answers[i] == ZipMap(chunks[i], states[i], f) && |answers[i]| == perWorker {
      ScatterDelivers(chunks, serReq, deReq, i);
      ZipLength(chunks[i], states[i], f);
    }
    GatherDecodes(answers, serRes, deRes, itemSize);
    ChunksFlatten(requests, perWorker);
    ZipFlattened(chunks, states, answers, f, perWorker);
  }

  lemma ZipLength<R, W, U>(a: seq<R>, b: seq<W>, f: (R, W) -> U)
    requires |a| == |b|
    ensures |ZipMap(a, b, f)| == |a|
  {}

  /** Decoding exact chunks of the gathered bytes gives back the workers' answers. */
  lemma GatherDecodes<U(!new)>(answers: seq<seq<U>>, ser: seq<U> -> seq<Byte>, de: seq<Byte> -> seq<U>, itemSize: nat)
    requires itemSize > 0 && Serializes(ser, de) && forall i | 0 <= i < |answers| :: |ser(answers[i])| == itemSize
    ensures Gathered(answers, ser, de, itemSize) == Flatten(answers)
  {
    hide Flatten;
    var messages := Map(ser, answers);
    FlattenCons([], messages);
    assert [] + Flatten(messages) == Flatten(messages);
    ExactChunksOfParts(messages, itemSize);
    forall i | 0 <= i < |answers| ensures de(messages[i]) == answers[i] {
      assert ser(answers[i]) + Zeros(0) == ser(answers[i]);
      assert de(ser(answers[i]) + Zeros(0)) == answers[i];
    }
    assert Map(de, messages) == answers;
  }

  /** Zipping chunk by chunk and flattening is zipping the whole. */
  lemma {:induction false} ZipFlattened<R, W, U>(rs: seq<seq<R>>, ws: seq<seq<W>>, us: seq<seq<U>>, f: (R, W) -> U,
                                                 n: nat)
    requires |rs| == |ws| == |us| && EachOfSize(rs, n) && EachOfSize(ws, n)
    requires forall i | 0 <= i < |rs| :: us[i] == ZipMap(rs[i], ws[i], f)
    ensures |Flatten(rs)| == |Flatten(ws)|
    ensures Flatten(us) == ZipMap(Flatten(rs), Flatten(ws), f)
    decreases |rs|
  {
    hide Flatten, ZipMap;
    if rs == [] {
      FlattenNothing<R>();
      FlattenNothing<W>();
      FlattenNothing<U>();
      NothingZipped<R, W, U>([], [], f);
    } else {
      ZipFlattened(rs[1..], ws[1..], us[1..], f, n);
      FlattenCons(rs[0], rs[1..]);
      FlattenCons(ws[0], ws[1..]);
      FlattenCons(us[0], us[1..]);
      assert rs == [rs[0]] + rs[1..] && ws == [ws[0]] + ws[1..] && us == [us[0]] + us[1..];
      var r, w := Flatten(rs), Flatten(ws);
      ZipSplit(r, w, f, n);
      assert r[..n] == rs[0] && r[n..] == Flatten(rs[1..]) && w[..n] == ws[0] && w[n..] == Flatten(ws[1..]);
    }
  }
}

/** The encrypted-video streamer: its cache of decrypted chunks, and the pull loop over a byte range. */
module VideoStream {
  import opened Prelude
  import opened JsText
  import opened VideoRange

  const MAX_CHUNKS_PER_RESPONSE: nat := 4
  const CACHE_LIMIT: nat := 8

  /** The bytes of one chunk of the file. */
  function ChunkOf(file: Bytes, chunkSize: nat, i: nat): (r: Bytes)
    requires i * chunkSize <= |file|
  {
    file[i * chunkSize..Min((i + 1) * chunkSize, |file|)]
  }

  /** chunkPlainSize */
  function ChunkPlainSize(i: nat, chunkSize: nat, totalSize: nat): int
    requires chunkSize > 0
  {
    var last := (totalSize - 1) / chunkSize;
    if i >= last then totalSize - last * chunkSize else chunkSize
  }

  lemma {:induction false} ChunkHasPlainSize(file: Bytes, chunkSize: nat, i: nat)
    requires chunkSize > 0 && i * chunkSize < |file|
    ensures |ChunkOf(file, chunkSize, i)| == ChunkPlainSize(i, chunkSize, |file|) > 0
  {
    var last := (|file| - 1) / chunkSize;
    ChunkBounds(|file| - 1, chunkSize);
    assert (i + 1) * chunkSize == i * chunkSize + chunkSize && (last + 1) * chunkSize == last * chunkSize + chunkSize;
    if i > last { Scaled(last + 1, i, chunkSize); }
    if i < last { Scaled(i + 1, last, chunkSize); }
  }

  // ---------- the cache: a Map in insertion order ----------

  type Entry = (nat, Bytes)

  predicate Holds(cache: seq<Entry>, i: nat) {
    exists k :: 0 <= k < |cache| && cache[k].0 == i
  }

  predicate DistinctIndexes(cache: seq<Entry>) {
    forall k, l :: 0 <= k < l < |cache| ==> cache[k].0 != cache[l].0
  }

  function Get(cache: seq<Entry>, i: nat): (v: Option<Bytes>)
    ensures v.Some? <==> Holds(cache, i)
    ensures v.Some? ==> (i, v.value) in cache
  {
    if cache == [] then None
    else if cache[0].0 == i then Some(cache[0].1)
    else
      assert forall k :: 0 < k < |cache| ==> cache[k] == cache[1..][k - 1];
      Get(cache[1..], i)
  }

  function Delete(cache: seq<Entry>, i: nat): (r: seq<Entry>)
    ensures forall e :: e in r ==> e in cache && e.0 != i
    ensures forall e :: e in cache && e.0 != i ==> e in r
    ensures |r| <= |cache| && (Holds(cache, i) ==> |r| < |cache|)
  {
    if cache == [] then []
    else if cache[0].0 == i then Delete(cache[1..], i)
    else
      assert Holds(cache, i) ==> Holds(cache[1..], i) by {
        if k :| 0 <= k < |cache| && cache[k].0 == i { assert cache[1..][k - 1] == cache[k]; }
      }
      [cache[0]] + Delete(cache[1..], i)
  }

  /** Map.set: in place when the key is there, else at the end. */
  function Put(cache: seq<Entry>, i: nat, v: Bytes): (r: seq<Entry>)
    ensures forall e :: e in r ==> e in cache || e == (i, v)
  {
    if cache == [] then [(i, v)]
    else if cache[0].0 == i then [(i, v)] + cache[1..]
    else [cache[0]] + Put(cache[1..], i, v)
  }

  function Evicted(cache: seq<Entry>): seq<Entry> {
    if |cache| > CACHE_LIMIT then cache[|cache| - CACHE_LIMIT..] else cache
  }

  lemma {:induction false} DeleteDistinct(cache: seq<Entry>, i: nat)
    requires DistinctIndexes(cache)
    ensures DistinctIndexes(Delete(cache, i))
  {
    if cache != [] {
      DeleteDistinct(cache[1..], i);
      if cache[0].0 != i {
        var r := Delete(cache[1..], i);
        forall e | e in r
          ensures e.0 != cache[0].0
        {
          var k :| 0 <= k < |cache[1..]| && cache[1..][k] == e;
          assert cache[k + 1] == e;
        }
      }
    }
  }

  lemma {:induction false} HoldsCons(cache: seq<Entry>, i: nat)
    requires cache != []
    ensures Holds(cache, i) <==> cache[0].0 == i || Holds(cache[1..], i)
  {
    if k :| 0 <= k < |cache| && cache[k].0 == i {
      assert k > 0 ==> cache[1..][k - 1] == cache[k];
    }
    if k :| 0 <= k < |cache[1..]| && cache[1..][k].0 == i {
      assert cache[k + 1] == cache[1..][k];
    }
  }

  lemma {:induction false} DistinctCons(e: Entry, rest: seq<Entry>)
    requires DistinctIndexes(rest) && forall f :: f in rest ==> f.0 != e.0
    ensures DistinctIndexes([e] + rest)
  {
    forall k, l | 0 <= k < l < |[e] + rest|
      ensures ([e] + rest)[k].0 != ([e] + rest)[l].0
    {
      assert ([e] + rest)[l] == rest[l - 1] && rest[l - 1] in rest;
      assert k > 0 ==> ([e] + rest)[k] == rest[k - 1];
    }
  }

  lemma {:induction false} TailApart(cache: seq<Entry>)
    requires DistinctIndexes(cache) && cache != []
    ensures DistinctIndexes(cache[1..]) && forall e :: e in cache[1..] ==> e.0 != cache[0].0
  {
    forall e | e in cache[1..]
      ensures e.0 != cache[0].0
    {
      var k :| 0 <= k < |cache[1..]| && cache[1..][k] == e;
      assert cache[k + 1] == e;
    }
  }

  lemma {:induction false} PutDistinct(cache: seq<Entry>, i: nat, v: Bytes)
    requires DistinctIndexes(cache)
    ensures DistinctIndexes(Put(cache, i, v)) && |Put(cache, i, v)| == if Holds(cache, i) then |cache| else |cache| + 1
    ensures !Holds(cache, i) ==> Put(cache, i, v) == cache + [(i, v)]
  {
    if cache != [] {
      HoldsCons(cache, i);
      TailApart(cache);
      if cache[0].0 != i {
        PutDistinct(cache[1..], i, v);
        DistinctCons(cache[0], Put(cache[1..], i, v));
      } else {
        DistinctCons((i, v), cache[1..]);
      }
    }
  }

  // ---------- the session ----------

  /** Every entry is the chunk of the file it stands for. */
  ghost predicate Right(file: Bytes, chunkSize: nat, cache: seq<Entry>) {
    forall e :: e in cache ==> e.0 * chunkSize < |file| && e.1 == ChunkOf(file, chunkSize, e.0)
  }

  lemma {:induction false} PutRight(file: Bytes, chunkSize: nat, cache: seq<Entry>, i: nat)
    requires Right(file, chunkSize, cache) && i * chunkSize < |file|
    ensures Right(file, chunkSize, Put(cache, i, ChunkOf(file, chunkSize, i)))
  {
    if cache != [] {
      PutRight(file, chunkSize, cache[1..], i);
    }
  }

  lemma {:induction false} EvictedRight(file: Bytes, chunkSize: nat, cache: seq<Entry>)
    requires Right(file, chunkSize, cache) && DistinctIndexes(cache)
    ensures Right(file, chunkSize, Evicted(cache)) && DistinctIndexes(Evicted(cache)) && |Evicted(cache)| <= CACHE_LIMIT
  {
    assert forall e :: e in Evicted(cache) ==> e in cache;
  }

  class Session {
    const file: Bytes
    const chunkSize: nat
    var cache: seq<Entry>
    /** How many fetches failed. What is promised when none does is promised while this stays as it was. */
    ghost var faults: nat

    ghost predicate Valid()
      reads this`cache
    {
      chunkSize > 0 && |cache| <= CACHE_LIMIT && DistinctIndexes(cache) && Right(file, chunkSize, cache)
    }

    constructor (file: Bytes, chunkSize: nat)
      requires chunkSize > 0
      ensures Valid() && this.file == file && this.chunkSize == chunkSize && cache == []
    {
      this.file, this.chunkSize, cache, faults := file, chunkSize, [], 0;
    }

    /** The part of getChunk before it waits: a hit becomes the youngest entry. */
    method Lookup(i: nat) returns (hit: Option<Bytes>)
      requires Valid()
      modifies this`cache
      ensures Valid()
      ensures hit == Get(old(cache), i)
      ensures hit.None? ==> cache == old(cache)
      ensures hit.Some? ==> hit.value == ChunkOf(file, chunkSize, i) && cache == Delete(old(cache), i) + [(i, hit.value)]
    {
      hit := Get(cache, i);
      if hit.Some? {
        DeleteDistinct(cache, i);
        cache := Delete(cache, i);
        cache := cache + [(i, hit.value)];
      }
    }

    /** The part after it waited: the chunk goes in, and the oldest entries go out. */
    method Insert(i: nat, plain: Bytes)
      requires Valid() && i * chunkSize < |file| && plain == ChunkOf(file, chunkSize, i)
      modifies this`cache
      ensures Valid() && cache == Evicted(Put(old(cache), i, plain))
    {
      PutDistinct(cache, i, plain);
      PutRight(file, chunkSize, cache, i);
      cache := Put(cache, i, plain);
      ghost var all := cache;
      EvictedRight(file, chunkSize, all);
      while |cache| > CACHE_LIMIT
        invariant |cache| <= |all| && cache == all[|all| - |cache|..] && (|cache| < |all| ==> |cache| >= CACHE_LIMIT)
      {
        cache := cache[1..];
      }
      assert cache == Evicted(all);
    }

    /** What other requests of the session do to the cache while one waits. */
    method Elsewhere()
      requires Valid()
      modifies this`cache
      ensures Valid()
    {
      var turns: nat := *;
      while turns > 0
        invariant Valid()
      {
        var i: nat := *;
        if * {
          var hit := Lookup(i);
        } else if i * chunkSize < |file| {
          Insert(i, ChunkOf(file, chunkSize, i));
        }
        turns := turns - 1;
      }
    }

    /** getChunk; None is any of its errors. A verified, decrypted chunk is that part of the file. */
    method GetChunk(i: nat) returns (chunk: Option<Bytes>)
      requires Valid() && i * chunkSize < |file|
      modifies this`cache, this`faults
      ensures Valid() && old(faults) <= faults && (faults == old(faults) ==> chunk.Some?)
      ensures chunk.Some? ==> chunk.value == ChunkOf(file, chunkSize, i)
      ensures Holds(old(cache), i) ==> chunk.Some?
    {
      chunk := Lookup(i);
      if chunk.Some? { return; }
      Elsewhere();
      if * {
        faults := faults + 1;
        return None;
      }
      chunk := Some(ChunkOf(file, chunkSize, i));
      Insert(i, chunk.value);
    }
  }

  // ---------- streamRange ----------

  datatype Pulled = Closed | Enqueued(bytes: Bytes) | Failed

  lemma {:induction false} SliceOfSlice(file: Bytes, low: nat, high: nat, offset: nat, take: nat)
    requires low + offset + take <= high <= |file|
    ensures file[low..high][offset..offset + take] == file[low + offset..low + offset + take]
  {
    var part := file[low..high];
    var x, y := part[offset..offset + take], file[low + offset..low + offset + take];
    forall k | 0 <= k < take
      ensures x[k] == y[k]
    {
      assert x[k] == part[offset + k] == file[low + (offset + k)];
    }
  }

  lemma {:induction false} SlicesJoin(file: Bytes, low: nat, middle: nat, high: nat)
    requires low <= middle <= high <= |file|
    ensures file[low..high] == file[low..middle] + file[middle..high]
  {
  }

  /** A pull ends where its chunk does, or where the range does inside it. */
  lemma {:induction false} PulledChunk(file: Bytes, chunkSize: nat, position: int, end: int, take: int)
    requires chunkSize > 0 && 0 <= position <= end < |file|
    requires var i := position / chunkSize;
             take == Min(Min((i + 1) * chunkSize, |file|) - position, end - position + 1)
    ensures take > 0
    ensures position + take <= end ==> (position + take) / chunkSize == position / chunkSize + 1
    ensures position + take > end ==> end / chunkSize == position / chunkSize
  {
    var i := position / chunkSize;
    ChunkBounds(position, chunkSize);
    if position + take <= end {
      assert (i + 1 + 1) * chunkSize == (i + 1) * chunkSize + chunkSize;
      ChunkIs(position + take, i + 1, chunkSize);
    } else {
      ChunkIs(end, i, chunkSize);
    }
  }

  /** A pull starts inside its chunk. */
  lemma {:induction false} PullStart(file: Bytes, chunkSize: nat, position: int)
    requires chunkSize > 0 && 0 <= position < |file|
    ensures var i := position / chunkSize;
            0 <= i && 0 <= i * chunkSize <= position < Min((i + 1) * chunkSize, |file|)
  {
    ChunkBounds(position, chunkSize);
  }

  class RangeStream {
    const session: Session
    const end: int
    var position: int

    ghost predicate Valid()
      reads this`position, session`cache
    {
      session.Valid() && 0 <= position && end < |session.file|
    }

    constructor (session: Session, start: int, end: int)
      requires session.Valid() && 0 <= start && end < |session.file|
      ensures Valid() && this.session == session && this.end == end && position == start
    {
      this.session, this.end, position := session, end, start;
    }

    /** Each pull enqueues the next bytes, up to the end of their chunk or of the range, and at least one. */
    method Pull() returns (r: Pulled)
      requires Valid()
      modifies this`position, session`cache, session`faults
      ensures Valid() && old(session.faults) <= session.faults && (session.faults == old(session.faults) ==> !r.Failed?)
      ensures r.Closed? <==> old(position) > end
      ensures !r.Enqueued? ==> position == old(position)
      ensures r.Enqueued? ==> old(position) < position <= end + 1 && r.bytes == session.file[old(position)..position]
      ensures r.Enqueued? && position <= end ==> position / session.chunkSize == old(position) / session.chunkSize + 1
      ensures r.Enqueued? && position > end ==> end / session.chunkSize == old(position) / session.chunkSize
    {
      if position > end { return Closed; }
      var index := position / session.chunkSize;
      PullStart(session.file, session.chunkSize, position);
      var chunk := session.GetChunk(index);
      if chunk.None? { return Failed; }
      var low: nat := index * session.chunkSize;
      ghost var high := Min((index + 1) * session.chunkSize, |session.file|);
      assert chunk.value == session.file[low..high];
      var offset: nat := position - low;
      var take: nat := Min(|chunk.value| - offset, end - position + 1);
      var bytes := chunk.value[offset..offset + take];
      SliceOfSlice(session.file, low, high, offset, take);
      PulledChunk(session.file, session.chunkSize, position, end, take);
      position := position + take;
      return Enqueued(bytes);
    }
  }

  /** The whole stream: all of the range, or a beginning of it when a chunk fails, one chunk a pull. */
  method StreamRange(session: Session, start: int, end: int) returns (out: Bytes, ok: bool, pulls: nat)
    requires session.Valid() && 0 <= start <= end + 1 <= |session.file|
    modifies session`cache, session`faults
    ensures session.Valid() && old(session.faults) <= session.faults && (session.faults == old(session.faults) ==> ok)
    ensures start + |out| <= end + 1 && out == session.file[start..start + |out|]
    ensures ok ==> out == session.file[start..end + 1]
    ensures ok && start <= end ==> pulls == end / session.chunkSize - start / session.chunkSize + 1
    ensures start > end ==> pulls == 0
  {
    var s := new RangeStream(session, start, end);
    out, ok, pulls := [], false, 0;
    while true
      invariant s.Valid() && s.session == session && s.end == end && old(session.faults) <= session.faults
      invariant start <= s.position <= end + 1 && out == session.file[start..s.position]
      invariant start > end ==> pulls == 0
      invariant s.position <= end ==> pulls == s.position / session.chunkSize - start / session.chunkSize
      invariant start <= end < s.position ==> pulls == end / session.chunkSize - start / session.chunkSize + 1
      decreases end + 1 - s.position
    {
      var r := s.Pull();
      if r.Closed? {
        ok := true;
        break;
      } else if r.Failed? {
        break;
      }
      out, pulls := out + r.bytes, pulls + 1;
    }
  }

  // ---------- the range branch of the fetch handler ----------

  datatype Response = Response(status: nat, range: RangeSpec, contentLength: int)

  function Respond(header: Option<JsString>, chunkSize: nat, totalSize: nat): Response
    requires chunkSize > 0
  {
    match ParseRange(header, totalSize)
    case None => Response(200, RangeSpec(0, totalSize - 1), totalSize)
    case Some(range) =>
      var plan := PlanChunks(range, chunkSize, totalSize, MAX_CHUNKS_PER_RESPONSE);
      Response(206, plan.served, plan.served.end - plan.served.start + 1)
  }

  lemma {:induction false} ResponseFits(header: Option<JsString>, chunkSize: nat, totalSize: nat)
    requires chunkSize > 0
    ensures var r := Respond(header, chunkSize, totalSize).range; 0 <= r.start <= r.end + 1 <= totalSize
    ensures totalSize > 0 && ParseRange(header, totalSize).Some? ==>
              var r := Respond(header, chunkSize, totalSize).range;
              r.start <= r.end && r.end / chunkSize - r.start / chunkSize + 1 <= MAX_CHUNKS_PER_RESPONSE
  {
    var parsed := ParseRange(header, totalSize);
    if parsed.Some? {
      if totalSize > 0 {
        AcceptedIsInside(header, totalSize);
      } else {
        EmptyFileRange(header);
      }
      PlanFits(parsed.value, chunkSize, totalSize);
    }
  }

  lemma {:induction false} PlanFits(range: RangeSpec, chunkSize: nat, totalSize: nat)
    requires chunkSize > 0
    requires if totalSize > 0 then 0 <= range.start <= range.end < totalSize else range == RangeSpec(0, -1)
    ensures var r := PlanChunks(range, chunkSize, totalSize, MAX_CHUNKS_PER_RESPONSE).served;
            && 0 <= r.start <= r.end + 1 <= totalSize
            && (totalSize > 0 ==> r.start <= r.end && r.end / chunkSize - r.start / chunkSize + 1 <= MAX_CHUNKS_PER_RESPONSE)
  {
    if totalSize > 0 {
      PlanServes(range, chunkSize, totalSize, MAX_CHUNKS_PER_RESPONSE);
    } else {
      EmptyPlan(chunkSize);
    }
  }

  lemma {:induction false} EmptyPlan(chunkSize: nat)
    requires chunkSize > 0
    ensures PlanChunks(RangeSpec(0, -1), chunkSize, 0, MAX_CHUNKS_PER_RESPONSE).served == RangeSpec(0, -1)
  {
    assert 0 / chunkSize == 0 && -1 / chunkSize == -1 by { ChunkIs(0, 0, chunkSize); ChunkIs(-1, -1, chunkSize); }
  }

  /** The part starts where the range does, and runs to its end or through exactly as many chunks as are served at once. */
  predicate ServesPart(asked: RangeSpec, chunkSize: nat, served: RangeSpec)
    requires chunkSize > 0
  {
    && served.start == asked.start && served.end <= asked.end
    && (served.end < asked.end ==>
          served.end + 1 == (served.end / chunkSize + 1) * chunkSize
          && served.end / chunkSize - served.start / chunkSize + 1 == MAX_CHUNKS_PER_RESPONSE)
  }

  lemma {:induction false} PlanServesAsked(asked: RangeSpec, chunkSize: nat, totalSize: nat)
    requires chunkSize > 0
    requires if totalSize > 0 then 0 <= asked.start <= asked.end < totalSize else asked == RangeSpec(0, -1)
    ensures ServesPart(asked, chunkSize, PlanChunks(asked, chunkSize, totalSize, MAX_CHUNKS_PER_RESPONSE).served)
  {
    if totalSize > 0 {
      PlanServes(asked, chunkSize, totalSize, MAX_CHUNKS_PER_RESPONSE);
    } else {
      EmptyPlan(chunkSize);
    }
  }

  /** Without a range that is taken the whole file is the answer, with one such a part. */
  predicate ServesAsked(header: Option<JsString>, chunkSize: nat, totalSize: nat, r: Response)
    requires chunkSize > 0
  {
    match ParseRange(header, totalSize)
    case None => r.status == 200 && r.range == RangeSpec(0, totalSize - 1)
    case Some(asked) => r.status == 206 && ServesPart(asked, chunkSize, r.range)
  }

  lemma {:induction false} RespondServesAsked(header: Option<JsString>, chunkSize: nat, totalSize: nat)
    requires chunkSize > 0
    ensures ServesAsked(header, chunkSize, totalSize, Respond(header, chunkSize, totalSize))
  {
    var asked := ParseRange(header, totalSize);
    if asked.Some? {
      if totalSize > 0 {
        AcceptedIsInside(header, totalSize);
      } else {
        EmptyFileRange(header);
      }
      PlanServesAsked(asked.value, chunkSize, totalSize);
    }
  }

  /** The body of a response that does not break off is exactly its range, as long as its Content-Length says. */
  method Serve(session: Session, header: Option<JsString>) returns (response: Response, body: Bytes, ok: bool, pulls: nat)
    requires session.Valid()
    modifies session`cache, session`faults
    ensures old(session.faults) <= session.faults && (session.faults == old(session.faults) ==> ok)
    ensures session.Valid() && response == Respond(header, session.chunkSize, |session.file|)
    ensures 0 <= response.range.start <= response.range.end + 1 <= |session.file|
    ensures ok ==> body == session.file[response.range.start..response.range.end + 1] && |body| == response.contentLength
    ensures |body| <= response.contentLength && body == session.file[response.range.start..response.range.start + |body|]
    ensures ok && response.status == 206 ==> pulls <= MAX_CHUNKS_PER_RESPONSE
    ensures ServesAsked(header, session.chunkSize, |session.file|, response)
  {
    response := Respond(header, session.chunkSize, |session.file|);
    ResponseFits(header, session.chunkSize, |session.file|);
    RespondServesAsked(header, session.chunkSize, |session.file|);
    body, ok, pulls := StreamRange(session, response.range.start, response.range.end);
  }

  /** A request for the bytes from first to last, or for all from first. */
  function Request(first: nat, last: nat, openEnded: bool): Wanted {
    if openEnded then From(first) else FromTo(first, last)
  }

  /** What such requests are answered with. */
  function Asked(last: nat, openEnded: bool, chunkSize: nat, totalSize: nat): nat -> RangeSpec
    requires chunkSize > 0
  {
    (first: nat) => Respond(Some(HeaderOf(Request(first, last, openEnded))), chunkSize, totalSize).range
  }

  /** Answers start where they should and end inside what was asked for. */
  ghost predicate Answers(asked: nat -> RangeSpec, last: nat) {
    forall first: nat :: first <= last ==> asked(first).start == first <= asked(first).end <= last
  }

  /** The ranges a player is served that asks from first, and again from the next byte until it has all up to last. */
  ghost function Served(asked: nat -> RangeSpec, first: nat, last: nat): seq<RangeSpec>
    requires Answers(asked, last) && first <= last
    decreases last - first
  {
    var r := asked(first);
    if r.end < last then [r] + Served(asked, r.end + 1, last) else [r]
  }

  lemma {:induction false} EveryRequestIsAnswered(last: nat, openEnded: bool, chunkSize: nat, totalSize: nat)
    requires chunkSize > 0 && last < totalSize && (openEnded ==> last == totalSize - 1)
    ensures Answers(Asked(last, openEnded, chunkSize, totalSize), last)
  {
    forall first: nat | first <= last
      ensures var r := Asked(last, openEnded, chunkSize, totalSize)(first); r.start == first <= r.end <= last
    {
      AskedIsServed(first, last, openEnded, chunkSize, totalSize);
    }
  }

  lemma {:induction false} AskedIsServed(first: nat, last: nat, openEnded: bool, chunkSize: nat, totalSize: nat)
    requires chunkSize > 0 && first <= last < totalSize && (openEnded ==> last == totalSize - 1)
    ensures var r := Respond(Some(HeaderOf(Request(first, last, openEnded))), chunkSize, totalSize).range;
            r.start == first <= r.end <= last
  {
    var w := Request(first, last, openEnded);
    ParsedAsNamed(w, totalSize);
    assert Names(w, totalSize, first) && Names(w, totalSize, last);
    var r := ParseRange(Some(HeaderOf(w)), totalSize).value;
    assert Names(w, totalSize, r.start) && Names(w, totalSize, r.end);
    PlanServes(r, chunkSize, totalSize, MAX_CHUNKS_PER_RESPONSE);
  }

  predicate InsideFile(file: Bytes, ranges: seq<RangeSpec>) {
    forall r :: r in ranges ==> 0 <= r.start <= r.end < |file|
  }

  function Joined(file: Bytes, ranges: seq<RangeSpec>): Bytes
    requires InsideFile(file, ranges)
  {
    if ranges == [] then [] else file[ranges[0].start..ranges[0].end + 1] + Joined(file, ranges[1..])
  }

  /** The ranges lie in the file and are, one after the other, its bytes from first to last. */
  predicate Covering(file: Bytes, ranges: seq<RangeSpec>, first: nat, last: nat)
    requires first <= last < |file|
  {
    InsideFile(file, ranges) && Joined(file, ranges) == file[first..last + 1]
  }

  lemma {:induction false} CoversOne(file: Bytes, r: RangeSpec)
    requires 0 <= r.start <= r.end < |file|
    ensures Covering(file, [r], r.start, r.end)
  {
    assert [r][1..] == [];
    assert Joined(file, [r]) == file[r.start..r.end + 1] + Joined(file, []);
  }

  lemma {:induction false} CoversMore(file: Bytes, r: RangeSpec, rest: seq<RangeSpec>, last: nat)
    requires 0 <= r.start <= r.end < last < |file| && Covering(file, rest, r.end + 1, last)
    ensures Covering(file, [r] + rest, r.start, last)
  {
    assert ([r] + rest)[1..] == rest;
    assert Joined(file, [r] + rest) == file[r.start..r.end + 1] + Joined(file, rest);
    SlicesJoin(file, r.start, r.end + 1, last + 1);
  }

  lemma {:induction false} AnswersCover(file: Bytes, asked: nat -> RangeSpec, first: nat, last: nat)
    requires Answers(asked, last) && first <= last < |file|
    ensures Covering(file, Served(asked, first, last), first, last) == true
    decreases last - first
  {
    var r := asked(first);
    assert r.start == first <= r.end <= last;
    if r.end < last {
      AnswersCover(file, asked, r.end + 1, last);
      CoversMore(file, r, Served(asked, r.end + 1, last), last);
    } else {
      CoversOne(file, r);
    }
  }

  /** Asking again from the next byte, with the same last byte or with none: together the answers are the whole range,
      in order, nothing twice. */
  lemma {:induction false} AskingAgainCoversAll(file: Bytes, first: nat, last: nat, openEnded: bool, chunkSize: nat)
    requires chunkSize > 0 && first <= last < |file| && (openEnded ==> last == |file| - 1)
    ensures var asked := Asked(last, openEnded, chunkSize, |file|);
            Answers(asked, last) && Covering(file, Served(asked, first, last), first, last)
  {
    EveryRequestIsAnswered(last, openEnded, chunkSize, |file|);
    AnswersCover(file, Asked(last, openEnded, chunkSize, |file|), first, last);
  }

  // ---------- what stays in the cache ----------

  /** One whole getChunk with nothing between its two parts. */
  function Accessed(cache: seq<Entry>, i: nat, v: Bytes): seq<Entry> {
    if Holds(cache, i) then Delete(cache, i) + [(i, v)] else Evicted(Put(cache, i, v))
  }

  function Indexes(cache: seq<Entry>): (r: seq<nat>)
    ensures |r| == |cache|
  {
    seq(|cache|, k requires 0 <= k < |cache| => cache[k].0)
  }

  function Drop(indexes: seq<nat>, i: nat): seq<nat> {
    if indexes == [] then []
    else if indexes[0] == i then Drop(indexes[1..], i)
    else [indexes[0]] + Drop(indexes[1..], i)
  }

  /** The indexes accessed, each once, by when they were last accessed. */
  function Recent(trace: seq<nat>): seq<nat> {
    if trace == [] then []
    else Drop(Recent(trace[..|trace| - 1]), trace[|trace| - 1]) + [trace[|trace| - 1]]
  }

  function Youngest(indexes: seq<nat>): seq<nat> {
    if |indexes| > CACHE_LIMIT then indexes[|indexes| - CACHE_LIMIT..] else indexes
  }

  predicate InFile(totalSize: nat, chunkSize: nat, trace: seq<nat>) {
    forall k :: 0 <= k < |trace| ==> trace[k] * chunkSize <= totalSize
  }

  function AfterAll(file: Bytes, chunkSize: nat, trace: seq<nat>): seq<Entry>
    requires InFile(|file|, chunkSize, trace)
  {
    if trace == [] then []
    else
      var i := trace[|trace| - 1];
      Accessed(AfterAll(file, chunkSize, trace[..|trace| - 1]), i, ChunkOf(file, chunkSize, i))
  }

  lemma {:induction false} DropIndexes(cache: seq<Entry>, i: nat)
    ensures Indexes(Delete(cache, i)) == Drop(Indexes(cache), i)
  {
    if cache != [] {
      DropIndexes(cache[1..], i);
      assert cache == [cache[0]] + cache[1..];
      IndexesCons(cache[0], cache[1..]);
      IndexesCons(cache[0], Delete(cache[1..], i));
    }
  }

  lemma {:induction false} IndexesCons(e: Entry, rest: seq<Entry>)
    ensures Indexes([e] + rest) == [e.0] + Indexes(rest)
    ensures Indexes([e] + rest)[0] == e.0 && Indexes([e] + rest)[1..] == Indexes(rest)
  {
  }

  lemma {:induction false} DropAppend(a: seq<nat>, b: seq<nat>, i: nat)
    ensures Drop(a + b, i) == Drop(a, i) + Drop(b, i)
  {
    if a == [] {
      assert a + b == b;
    } else {
      DropAppend(a[1..], b, i);
      assert (a + b)[0] == a[0] && (a + b)[1..] == a[1..] + b;
      PrependApart(a[0], Drop(a[1..], i), Drop(b, i));
    }
  }

  lemma {:induction false} PrependApart(x: nat, a: seq<nat>, b: seq<nat>)
    ensures [x] + (a + b) == ([x] + a) + b
  {
  }

  lemma {:induction false} DropAbsent(a: seq<nat>, i: nat)
    requires i !in a
    ensures Drop(a, i) == a
  {
    if a != [] {
      DropAbsent(a[1..], i);
    }
  }

  lemma {:induction false} DropKeepsOthers(a: seq<nat>, i: nat)
    ensures forall x :: x in Drop(a, i) <==> x in a && x != i
  {
    if a != [] {
      DropKeepsOthers(a[1..], i);
    }
  }

  predicate NoRepeats(a: seq<nat>) {
    forall k, l :: 0 <= k < l < |a| ==> a[k] != a[l]
  }

  lemma {:induction false} DropNoRepeats(a: seq<nat>, i: nat)
    requires NoRepeats(a)
    ensures NoRepeats(Drop(a, i)) && |Drop(a, i)| == if i in a then |a| - 1 else |a|
  {
    if a != [] {
      DropNoRepeats(a[1..], i);
      DropKeepsOthers(a[1..], i);
      if a[0] == i {
        assert i !in a[1..];
      } else {
        assert i in a <==> i in a[1..];
        assert a[0] !in Drop(a[1..], i);
      }
    }
  }

  lemma {:induction false} RecentNoRepeats(trace: seq<nat>)
    ensures NoRepeats(Recent(trace))
  {
    if trace != [] {
      var front, i := trace[..|trace| - 1], trace[|trace| - 1];
      RecentNoRepeats(front);
      DropNoRepeats(Recent(front), i);
      DropKeepsOthers(Recent(front), i);
    }
  }

  lemma {:induction false} YoungerHit(o: seq<nat>, y: seq<nat>, i: nat)
    requires i !in o && i in y && NoRepeats(y) && |y| <= CACHE_LIMIT && (o != [] ==> |y| == CACHE_LIMIT)
    ensures Youngest(Drop(o + y, i) + [i]) == Drop(y, i) + [i]
  {
    DropAppend(o, y, i);
    DropAbsent(o, i);
    DropNoRepeats(y, i);
    assert Drop(o + y, i) + [i] == o + (Drop(y, i) + [i]);
    YoungestOfLast(o, Drop(y, i) + [i]);
  }

  lemma {:induction false} YoungerMiss(o: seq<nat>, y: seq<nat>, i: nat)
    requires i !in y && |y| <= CACHE_LIMIT && (o != [] ==> |y| == CACHE_LIMIT)
    ensures Youngest(Drop(o + y, i) + [i]) == Youngest(y + [i])
  {
    DropAppend(o, y, i);
    DropAbsent(y, i);
    assert Drop(o + y, i) + [i] == Drop(o, i) + (y + [i]);
    YoungestIgnoresOld(Drop(o, i), y + [i]);
  }

  /** Taking the youngest first or last makes no difference. */
  lemma {:induction false} YoungestStep(recent: seq<nat>, i: nat)
    requires NoRepeats(recent)
    ensures Youngest(Drop(recent, i) + [i]) ==
            if i in Youngest(recent) then Drop(Youngest(recent), i) + [i] else Youngest(Youngest(recent) + [i])
  {
    var y := Youngest(recent);
    var o := recent[..|recent| - |y|];
    assert recent == o + y;
    if k :| 0 <= k < |y| && y[k] == i {
      assert recent[|o| + k] == i;
      YoungerHit(o, y, i);
    } else {
      YoungerMiss(o, y, i);
    }
  }

  lemma {:induction false} YoungestOfLast(o: seq<nat>, y: seq<nat>)
    requires |y| <= CACHE_LIMIT && (o != [] ==> |y| == CACHE_LIMIT)
    ensures Youngest(o + y) == y
  {
    assert o == [] ==> o + y == y;
  }

  lemma {:induction false} YoungestIgnoresOld(o: seq<nat>, y: seq<nat>)
    requires o != [] ==> |y| >= CACHE_LIMIT
    ensures Youngest(o + y) == Youngest(y)
  {
    assert o == [] ==> o + y == y;
  }

  /** After any accesses the cache holds, oldest first, the eight chunks that were accessed most recently. */
  lemma {:induction false} CacheHoldsMostRecent(file: Bytes, chunkSize: nat, trace: seq<nat>)
    requires InFile(|file|, chunkSize, trace)
    ensures Indexes(AfterAll(file, chunkSize, trace)) == Youngest(Recent(trace))
  {
    if trace != [] {
      var front, i := trace[..|trace| - 1], trace[|trace| - 1];
      assert InFile(|file|, chunkSize, front) && i * chunkSize <= |file|;
      CacheHoldsMostRecent(file, chunkSize, front);
      RecentAccess(AfterAll(file, chunkSize, front), front, i, ChunkOf(file, chunkSize, i));
      assert trace == front + [i];
    }
  }

  lemma {:induction false} RecentSnoc(front: seq<nat>, i: nat)
    ensures Recent(front + [i]) == Drop(Recent(front), i) + [i]
  {
    assert (front + [i])[..|front|] == front;
  }

  lemma {:induction false} RecentAccess(cache: seq<Entry>, front: seq<nat>, i: nat, v: Bytes)
    requires Indexes(cache) == Youngest(Recent(front))
    ensures Indexes(Accessed(cache, i, v)) == Youngest(Recent(front + [i]))
  {
    RecentSnoc(front, i);
    RecentNoRepeats(front);
    YoungestStep(Recent(front), i);
    AccessIndexes(cache, i, v);
  }

  lemma {:induction false} HoldsIndex(cache: seq<Entry>, i: nat)
    ensures Holds(cache, i) <==> i in Indexes(cache)
  {
    if Holds(cache, i) {
      var k :| 0 <= k < |cache| && cache[k].0 == i;
      assert Indexes(cache)[k] == i;
    }
    if i in Indexes(cache) {
      var k :| 0 <= k < |cache| && Indexes(cache)[k] == i;
      assert cache[k].0 == i;
    }
  }

  lemma {:induction false} IndexesAppend(a: seq<Entry>, e: Entry)
    ensures Indexes(a + [e]) == Indexes(a) + [e.0]
  {
  }

  lemma {:induction false} IndexesEvicted(a: seq<Entry>)
    ensures Indexes(Evicted(a)) == Youngest(Indexes(a))
  {
  }

  lemma {:induction false} DistinctHere(cache: seq<Entry>)
    requires NoRepeats(Indexes(cache))
    ensures DistinctIndexes(cache)
  {
    forall k, l | 0 <= k < l < |cache|
      ensures cache[k].0 != cache[l].0
    {
      assert Indexes(cache)[k] == cache[k].0 && Indexes(cache)[l] == cache[l].0;
    }
  }

  lemma {:induction false} AccessIndexes(cache: seq<Entry>, i: nat, v: Bytes)
    requires NoRepeats(Indexes(cache))
    ensures Indexes(Accessed(cache, i, v)) ==
            if i in Indexes(cache) then Drop(Indexes(cache), i) + [i] else Youngest(Indexes(cache) + [i])
  {
    HoldsIndex(cache, i);
    if Holds(cache, i) {
      DropIndexes(cache, i);
      IndexesAppend(Delete(cache, i), (i, v));
    } else {
      DistinctHere(cache);
      PutDistinct(cache, i, v);
      IndexesAppend(cache, (i, v));
      IndexesEvicted(cache + [(i, v)]);
    }
  }
}

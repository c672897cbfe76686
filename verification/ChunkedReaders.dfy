/** A seekable reader over a blob that is stored as a list of chunks. */
module ChunkedReaders {
  import opened Prelude

  /** An ideal hash of blob contents; `Unknown` digests are the hash of nothing that is ever stored. */
  datatype BlobDigest = Hash(content: Bytes) | Unknown(id: nat)

  /** `open_read` of a blob service, read to the end. */
  type Service = BlobDigest -> Option<Bytes>

  datatype ChunkMeta = ChunkMeta(digest: BlobDigest, size: U64)

  datatype Chunk = Chunk(offset: U64, size: U64, digest: BlobDigest)

  datatype IoError = NotFound | Overflow | BeyondEnd

  function TotalSize(list: seq<ChunkMeta>): nat {
    if list == [] then 0 else TotalSize(list[..|list| - 1]) + list[|list| - 1].size
  }

  lemma {:induction false} PrefixSize(list: seq<ChunkMeta>, i: nat)
    requires i <= |list|
    ensures TotalSize(list[..i]) <= TotalSize(list)
  {
    if i < |list| {
      var n := |list| - 1;
      PrefixSize(list[..n], i);
      assert list[..n][..i] == list[..i];
    } else {
      assert list[..i] == list;
    }
  }

  // ---------- The chunk index ----------

  function End(c: Chunk): nat {
    c.offset + c.size
  }

  /** The chunks lie one after the other, from offset zero. */
  ghost predicate Laid(chunks: seq<Chunk>) {
    && chunks != [] && chunks[0].offset == 0
    && (forall i :: 0 <= i < |chunks| - 1 ==> chunks[i + 1].offset == End(chunks[i]))
    && End(chunks[|chunks| - 1]) < TWO64
  }

  function BlobLength(chunks: seq<Chunk>): nat {
    if chunks == [] then 0 else End(chunks[|chunks| - 1])
  }

  lemma {:induction false} LaidInOrder(chunks: seq<Chunk>, i: nat, j: nat)
    requires Laid(chunks) && i < j < |chunks|
    ensures End(chunks[i]) <= chunks[j].offset
    decreases j - i
  {
    if i + 1 < j {
      LaidInOrder(chunks, i + 1, j);
    }
    assert chunks[i + 1].offset == End(chunks[i]);
  }

  lemma {:induction false} Adjacent(chunks: seq<Chunk>, i: nat)
    requires Laid(chunks) && 0 < i < |chunks|
    ensures chunks[i].offset == End(chunks[i - 1])
  {
    assert chunks[i - 1 + 1].offset == End(chunks[i - 1]);
  }

  ghost predicate Describes(chunks: seq<Chunk>, list: seq<ChunkMeta>) {
    && |chunks| == |list|
    && (forall i :: 0 <= i < |list| ==> chunks[i].offset == TotalSize(list[..i]))
    && (forall i :: 0 <= i < |list| ==> chunks[i].size == list[i].size && chunks[i].digest == list[i].digest)
  }

  /** As above, but offsets are machine words. */
  ghost predicate DescribesWrapped(chunks: seq<Chunk>, list: seq<ChunkMeta>) {
    |chunks| == |list| && forall i :: 0 <= i < |list| ==> DescribesAt(chunks[i], list, i)
  }

  ghost predicate DescribesAt(c: Chunk, list: seq<ChunkMeta>, i: nat) {
    i < |list| && c.offset == TotalSize(list[..i]) % TWO64 && c.size == list[i].size && c.digest == list[i].digest
  }

  lemma {:induction false} SizeNext(list: seq<ChunkMeta>, i: nat)
    requires i < |list|
    ensures TotalSize(list[..i + 1]) == TotalSize(list[..i]) + list[i].size
  {
    assert list[..i + 1][..i] == list[..i];
  }

  lemma {:induction false} LaidOffsets(chunks: seq<Chunk>, list: seq<ChunkMeta>, i: nat)
    requires Laid(chunks) && DescribesWrapped(chunks, list) && i < |list|
    ensures chunks[i].offset == TotalSize(list[..i]) && End(chunks[i]) == TotalSize(list[..i + 1])
  {
    assert DescribesAt(chunks[i], list, i);
    SizeNext(list, i);
    if i > 0 {
      LaidOffsets(chunks, list, i - 1);
      Adjacent(chunks, i);
    }
  }

  lemma {:induction false} LaidDescribes(chunks: seq<Chunk>, list: seq<ChunkMeta>)
    requires list != [] && Laid(chunks) && DescribesWrapped(chunks, list)
    ensures Describes(chunks, list) && BlobLength(chunks) == TotalSize(list) < TWO64
  {
    hide TotalSize;
    assert list[..|list|] == list;
    LaidOffsets(chunks, list, |list| - 1);
    forall i | 0 <= i < |list| ensures DescribesAt(chunks[i], list, i) && chunks[i].offset == TotalSize(list[..i]) {
      LaidOffsets(chunks, list, i);
    }
  }

  lemma {:induction false} FittingOffset(chunks: seq<Chunk>, list: seq<ChunkMeta>, i: nat)
    requires i < |list| && TotalSize(list) < TWO64 && DescribesWrapped(chunks, list)
    ensures chunks[i].offset == TotalSize(list[..i]) && End(chunks[i]) == TotalSize(list[..i + 1]) < TWO64
  {
    assert DescribesAt(chunks[i], list, i);
    SizeNext(list, i);
    PrefixSize(list, i + 1);
  }

  lemma {:induction false} FittingIsLaid(chunks: seq<Chunk>, list: seq<ChunkMeta>)
    requires list != [] && TotalSize(list) < TWO64 && DescribesWrapped(chunks, list)
    ensures Laid(chunks)
  {
    hide DescribesWrapped;
    assert |chunks| == |list| by { assert DescribesWrapped(chunks, list); SameLength(chunks, list); }
    FittingOffset(chunks, list, 0);
    FittingOffset(chunks, list, |list| - 1);
    forall i | 0 <= i < |chunks| - 1 ensures chunks[i + 1].offset == End(chunks[i]) {
      FittingOffset(chunks, list, i);
      FittingOffset(chunks, list, i + 1);
    }
  }

  lemma {:induction false} SameLength(chunks: seq<Chunk>, list: seq<ChunkMeta>)
    requires DescribesWrapped(chunks, list)
    ensures |chunks| == |list|
  {
  }

  /** Assigns offsets, which wrap around; an empty list is not allowed. */
  method FromIter(list: seq<ChunkMeta>) returns (chunks: seq<Chunk>)
    requires list != []
    ensures DescribesWrapped(chunks, list)
    ensures Laid(chunks) <==> TotalSize(list) < TWO64
    ensures Laid(chunks) ==> Describes(chunks, list) && BlobLength(chunks) == TotalSize(list)
  {
    hide Laid, Describes;
    chunks := [];
    var offset: U64 := 0;
    for i := 0 to |list|
      invariant |chunks| == i && offset == TotalSize(list[..i]) % TWO64
      invariant forall k :: 0 <= k < i ==> DescribesAt(chunks[k], list, k)
    {
      SizeNext(list, i);
      chunks := chunks + [Chunk(offset, list[i].size, list[i].digest)];
      AddModulo(TotalSize(list[..i]), list[i].size);
      offset := (offset + list[i].size) % TWO64;
    }
    if Laid(chunks) { LaidDescribes(chunks, list); }
    if TotalSize(list) < TWO64 { FittingIsLaid(chunks, list); }
  }

  predicate Contains(c: Chunk, pos: nat) {
    c.offset <= pos < End(c)
  }

  /** At most one chunk contains a position. */
  lemma {:induction false} ContainingIsUnique(chunks: seq<Chunk>, i: nat, j: nat, pos: nat)
    requires Laid(chunks) && i < |chunks| && j < |chunks| && Contains(chunks[i], pos) && Contains(chunks[j], pos)
    ensures i == j
  {
    if i < j { LaidInOrder(chunks, i, j); }
    if j < i { LaidInOrder(chunks, j, i); }
  }

  /** Bisection: finds the chunk that contains the position, or knows it is outside. */
  method GetChunkIdxForPosition(chunks: seq<Chunk>, pos: nat) returns (r: Option<nat>)
    requires Laid(chunks)
    ensures r.Some? <==> pos < BlobLength(chunks)
    ensures r.Some? ==> r.value < |chunks| && Contains(chunks[r.value], pos)
  {
    var lo, hi := 0, |chunks|;
    while lo < hi
      invariant 0 <= lo <= hi <= |chunks|
      invariant lo > 0 ==> End(chunks[lo - 1]) <= pos
      invariant hi < |chunks| ==> pos < chunks[hi].offset
      invariant lo < hi || hi == |chunks|
    {
      var mid := (lo + hi) / 2;
      if lo > 0 { Adjacent(chunks, lo); }
      if mid + 1 < |chunks| { Adjacent(chunks, mid + 1); }
      if End(chunks[mid]) <= pos {
        lo := mid + 1;
      } else if chunks[mid].offset > pos {
        hi := mid;
      } else {
        if mid < |chunks| - 1 { LaidInOrder(chunks, mid, |chunks| - 1); }
        return Some(mid);
      }
    }
    return None;
  }

  // ---------- The reader ----------

  datatype SeekFrom = FromStart(n: U64) | FromEnd(delta: int) | FromCurrent(delta: int)

  /** What a seek to `target` does to a cursor at `pos` in a blob of `len` bytes. */
  predicate Lands(target: int, pos: nat, len: nat, r: Result<(), IoError>, pos': nat) {
    && (r == Err(Overflow) <==> target < 0 || target >= TWO64)
    && (r == Err(BeyondEnd) <==> len < target < TWO64 && target != pos)
    && (r.Ok? <==> 0 <= target < TWO64 && (target <= len || target == pos))
    && pos' == if r.Ok? then target else pos
  }

  /** Every chunk the service has is the slice of `blob` it stands for. */
  ghost predicate Serves(service: Service, chunks: seq<Chunk>, blob: Bytes) {
    && |blob| == BlobLength(chunks)
    && forall i :: 0 <= i < |chunks| && service(chunks[i].digest).Some? ==>
         End(chunks[i]) <= |blob| && service(chunks[i].digest).value == blob[chunks[i].offset..End(chunks[i])]
  }

  lemma {:induction false} EndOf(chunks: seq<Chunk>, i: nat)
    requires Laid(chunks) && i < |chunks|
    ensures End(chunks[i]) == if i + 1 < |chunks| then chunks[i + 1].offset else BlobLength(chunks)
    ensures End(chunks[i]) <= BlobLength(chunks)
  {
    if i + 1 < |chunks| {
      Adjacent(chunks, i + 1);
      LaidInOrder(chunks, i, |chunks| - 1);
    }
  }

  lemma {:induction false} ServesLength(service: Service, chunks: seq<Chunk>, blob: Bytes)
    requires Serves(service, chunks, blob)
    ensures |blob| == BlobLength(chunks)
  {
  }

  lemma {:induction false} ServesAt(service: Service, chunks: seq<Chunk>, blob: Bytes, i: nat)
    requires Serves(service, chunks, blob) && i < |chunks| && service(chunks[i].digest).Some?
    ensures End(chunks[i]) <= |blob| && service(chunks[i].digest).value == blob[chunks[i].offset..End(chunks[i])]
  {
  }

  lemma {:induction false} SliceParts(blob: Bytes, a: nat, b: nat, k: nat)
    requires a <= b <= |blob| && k <= b - a
    ensures blob[a..b][..k] == blob[a..a + k] && blob[a..b][k..] == blob[a + k..b]
  {
  }

  /** A transfer size between one and what is asked for and available. */
  function AtMost(wanted: nat, max: nat, available: nat): (n: nat)
    requires max > 0 && available > 0
    ensures 0 < n <= max && n <= available
  {
    var n := if wanted == 0 then 1 else wanted;
    var m := if n > max then max else n;
    if m > available then available else m
  }

  class ChunkedReader {
    const chunks: seq<Chunk>
    const service: Service
    var pos: U64
    // the inner stream: the unread rest of the open chunk, the chunk to open next, and what to skip of it
    var current: Bytes
    var next: nat
    var skip: nat
    ghost const blob: Bytes

    /** Where in the blob the inner stream stands. */
    ghost function StreamOffset(): int
      reads this
    {
      (if next < |chunks| then chunks[next].offset + skip else BlobLength(chunks)) - |current|
    }

    ghost predicate Valid()
      reads this
    {
      && Laid(chunks) && Serves(service, chunks, blob)
      && next <= |chunks| && (skip > 0 ==> next < |chunks| && skip < chunks[next].size)
      && 0 <= pos <= StreamOffset() <= |blob|
      && StreamOffset() + |current| <= |blob| && current == blob[StreamOffset()..StreamOffset() + |current|]
      && (current != [] ==> next > 0 && skip == 0 && !Missing(next - 1) && Contains(chunks[next - 1], StreamOffset()))
      && (next < |chunks| ==> End(chunks[next]) > 0)
    }

    ghost predicate Missing(i: nat) {
      i < |chunks| && service(chunks[i].digest).None?
    }

    ghost predicate AllPresent(lo: nat, hi: nat) {
      forall i: nat :: lo <= i < hi ==> !Missing(i)
    }

    ghost predicate NoHoles() {
      AllPresent(0, |chunks|)
    }

    /** Only empty chunks at the very start are missing, and those are never opened. */
    ghost predicate Harmless() {
      forall i: nat :: Missing(i) ==> End(chunks[i]) == 0
    }

    /** The stream stands where the reader says it stands: it is a cursor over the blob. */
    ghost predicate InSync()
      reads this
    {
      StreamOffset() == pos
    }

    /** Nothing has been read. */
    ghost predicate Unread()
      reads this
    {
      Valid() && InSync() && pos == 0 && current == []
    }

    constructor (list: seq<ChunkMeta>, service: Service, ghost blob: Bytes)
      requires list != [] && TotalSize(list) < TWO64
      requires forall chunks :: Laid(chunks) && Describes(chunks, list) ==> Serves(service, chunks, blob)
      ensures Unread() && this.blob == blob && this.service == service && Describes(chunks, list)
    {
      var cs := FromIter(list);
      chunks := cs;
      this.service, this.blob := service, blob;
      pos, current, next, skip := 0, [], 0, 0;
      new;
      ReaderSkippedOffset(0);
    }

    /** Re-assembles the inner stream at an offset within the blob; the lookup cannot fail. */
    method ReaderSkippedOffset(offset: nat)
      requires Laid(chunks) && Serves(service, chunks, blob) && offset <= BlobLength(chunks) && pos <= offset
      modifies this`current, this`next, this`skip
      ensures Valid() && StreamOffset() == offset && current == []
    {
      current, skip := [], 0;
      if offset == BlobLength(chunks) {
        next := |chunks|;
        return;
      }
      var start := GetChunkIdxForPosition(chunks, offset);
      next := start.value;
      skip := offset - chunks[next].offset;
    }

    /** Opens the next chunk; a missing one is passed over with an error. */
    method OpenNext() returns (r: Result<(), IoError>)
      requires Valid() && current == [] && next < |chunks|
      modifies this`current, this`next, this`skip
      ensures Valid() && next == old(next) + 1 && skip == 0 && (r.Err? ==> current == [])
      ensures r.Ok? <==> !Missing(old(next))
      ensures r.Ok? ==> StreamOffset() == old(StreamOffset())
      ensures r.Err? ==> r.error == NotFound && StreamOffset() == End(chunks[old(next)])
    {
      ServesLength(service, chunks, blob);
      hide Laid, Serves;
      var c := chunks[next];
      var found := service(c.digest);
      EndOf(chunks, next);
      var skipped := skip;
      if found.Some? {
        ServesAt(service, chunks, blob, next);
        SliceParts(blob, c.offset, End(c), skipped);
      }
      next, skip := next + 1, 0;
      if found.None? {
        return Err(NotFound);
      }
      current := found.value[skipped..];
      return Ok(());
    }

    /** A missing chunk around position `at`, not opened before, after which the stream now stands. */
    ghost predicate PassedMissing(at: int, from: nat)
      reads this
    {
      && from < next && Missing(next - 1) && current == []
      && chunks[next - 1].offset <= at <= End(chunks[next - 1]) == StreamOffset() && StreamOffset() > 0
    }

    ghost predicate MissingAt(at: int)
      reads this
    {
      exists i: nat :: Missing(i) && chunks[i].offset <= at < End(chunks[i])
    }

    /** Opens chunks, empty ones included, until there is something to read. */
    method OpenNonEmpty() returns (r: Result<(), IoError>)
      requires Valid()
      modifies this`current, this`next, this`skip
      ensures Valid()
      ensures r.Ok? ==> StreamOffset() == old(StreamOffset()) && (current != [] || next == |chunks|)
      ensures r.Ok? ==> next >= old(next) && AllPresent(old(next), next)
      ensures r.Err? ==> r.error == NotFound && PassedMissing(old(StreamOffset()), old(next))
    {
      ghost var at := StreamOffset();
      while current == []
        invariant Valid() && StreamOffset() == at && (next > old(next) ==> skip == 0)
        invariant next >= old(next) && AllPresent(old(next), next)
        decreases |chunks| - next
      {
        if next == |chunks| {
          return Ok(());
        }
        ghost var i := next;
        assert chunks[i].offset <= at <= End(chunks[i]);
        var step := OpenNext();
        if step.Err? {
          assert Missing(i);
          return Err(step.error);
        }
      }
      return Ok(());
    }

    lemma {:induction false} NothingMissing()
      requires Valid() && (current != [] || next == |chunks|)
      ensures !MissingAt(StreamOffset())
    {
      if MissingAt(StreamOffset()) {
        var at: nat := StreamOffset();
        var i: nat :| Missing(i) && chunks[i].offset <= at < End(chunks[i]);
        EndOf(chunks, i);
        if current != [] { ContainingIsUnique(chunks, i, next - 1, at); }
      }
    }

    method Take(n: nat) returns (bytes: Bytes)
      requires Valid() && 0 < n <= |current|
      modifies this`current, this`pos
      ensures Valid() && StreamOffset() == old(StreamOffset()) + n && pos == old(pos) + n
      ensures |bytes| == n && bytes == blob[old(StreamOffset())..StreamOffset()]
    {
      EndOf(chunks, next - 1);
      ServesLength(service, chunks, blob);
      hide Laid, Serves, Missing, BlobLength;
      ghost var at: nat, end := StreamOffset(), StreamOffset() + |current|;
      SliceParts(blob, at, end, n);
      bytes := current[..n];
      current := current[n..];
      pos := pos + n;
      assert StreamOffset() == at + n && StreamOffset() + |current| == end;
    }

    /** Hands on bytes of the first non-empty chunk; how many is up to the stream. */
    method PollRead(max: nat) returns (r: Result<Bytes, IoError>)
      requires Valid()
      modifies this`pos, this`current, this`next, this`skip
      ensures Valid()
      ensures r.Ok? ==>
        |r.value| <= max && pos == old(pos) + |r.value| && StreamOffset() == old(StreamOffset()) + |r.value|
      ensures r.Ok? ==> r.value == blob[old(StreamOffset())..StreamOffset()]
      ensures r.Ok? && r.value == [] && max > 0 ==> old(StreamOffset()) == |blob| && next == |chunks|
      ensures r.Ok? ==> next >= old(next) && AllPresent(old(next), next)
      ensures r.Err? ==> r.error == NotFound && pos == old(pos) && PassedMissing(old(StreamOffset()), old(next))
      ensures max > 0 && MissingAt(old(StreamOffset())) ==> r.Err?
    {
      ServesLength(service, chunks, blob);
      hide Laid, Serves;
      if max == 0 {
        return Ok([]);
      }
      var step := OpenNonEmpty();
      if step.Err? {
        return Err(step.error);
      }
      NothingMissing();
      if current == [] {
        return Ok([]);
      }
      var wanted: nat := *;
      var bytes := Take(AtMost(wanted, max, |current|));
      return Ok(bytes);
    }

    /** Reads with a buffer of `max` bytes: everything behind the position, exactly if no chunk from the next one on
        is missing. */
    method ReadToEnd(max: nat) returns (r: Result<Bytes, IoError>)
      requires Valid() && InSync() && max > 0
      modifies this`pos, this`current, this`next, this`skip
      ensures Valid() && (r.Ok? ==> InSync() && pos == |blob| && r.value == blob[old(pos)..])
      ensures r.Ok? <==> AllPresent(old(next), |chunks|)
    {
      hide Laid, Serves, MissingAt;
      var bytes := [];
      ghost var start := pos;
      while true
        invariant Valid() && InSync() && start <= pos && bytes == blob[start..pos]
        invariant next >= old(next) && AllPresent(old(next), next)
        decreases |blob| - pos
      {
        ghost var at := pos;
        var step := PollRead(max);
        if step.Err? {
          return Err(step.error);
        }
        assert blob[start..pos] == blob[start..at] + blob[at..pos];
        bytes := bytes + step.value;
        if step.value == [] {
          return Ok(bytes);
        }
      }
    }

    method StartSeek(from: SeekFrom) returns (r: Result<(), IoError>)
      requires Valid()
      modifies this`pos, this`current, this`next, this`skip
      ensures Valid()
      ensures from.FromStart? ==> Lands(from.n, old(pos), |blob|, r, pos)
      ensures from.FromEnd? ==> Lands(|blob| + from.delta, old(pos), |blob|, r, pos)
      ensures from.FromCurrent? ==> Lands(old(pos) + from.delta, old(pos), |blob|, r, pos)
      ensures r.Ok? && pos != old(pos) ==> InSync()
      ensures r.Err? || pos == old(pos) ==> pos == old(pos) && StreamOffset() == old(StreamOffset())
    {
      var len := BlobLength(chunks);
      var target := match from
        case FromStart(n) => n
        case FromEnd(delta) => len + delta
        case FromCurrent(delta) => pos + delta;
      if target < 0 || target >= TWO64 {
        return Err(Overflow);
      }
      if target != pos {
        if target > len {
          return Err(BeyondEnd);
        }
        pos := target;
        ReaderSkippedOffset(target);
      }
      return Ok(());
    }
  }

  // ---------- Runs of reads and seeks ----------

  datatype Request = Read(max: nat) | Seek(from: SeekFrom)

  datatype Response = Data(bytes: Bytes) | Sought | Failed(error: IoError)

  /** How a cursor over `blob` at `pos` may answer a request: a read hands on some of what follows. */
  ghost predicate CursorStep(blob: Bytes, pos: nat, request: Request, response: Response, pos': nat) {
    match request
    case Read(max) =>
      && response.Data? && |response.bytes| <= max && pos' == pos + |response.bytes| <= |blob|
      && response.bytes == blob[pos..pos'] && (response.bytes == [] && max > 0 ==> pos == |blob|)
    case Seek(FromStart(n)) => CursorSeek(blob, pos, n, response, pos')
    case Seek(FromEnd(delta)) => CursorSeek(blob, pos, |blob| + delta, response, pos')
    case Seek(FromCurrent(delta)) => CursorSeek(blob, pos, pos + delta, response, pos')
  }

  /** A cursor goes where it is told to, but neither before the start nor behind the end. */
  ghost predicate CursorSeek(blob: Bytes, pos: nat, target: int, response: Response, pos': nat) {
    && (response == Failed(Overflow) <==> target < 0 || target >= TWO64)
    && (response == Failed(BeyondEnd) <==> |blob| < target < TWO64)
    && (response == Sought <==> 0 <= target <= |blob| && target < TWO64)
    && pos' == if response == Sought then target else pos
  }

  ghost predicate CursorRun(blob: Bytes, requests: seq<Request>, responses: seq<Response>, positions: seq<nat>) {
    && |responses| == |requests| && |positions| == |requests| + 1
    && forall i :: 0 <= i < |requests| ==> CursorStep(blob, positions[i], requests[i], responses[i], positions[i + 1])
  }

  lemma {:induction false} CursorRunExtends(blob: Bytes, requests: seq<Request>, responses: seq<Response>,
        positions: seq<nat>, q: Request, r: Response, pos: nat)
    requires CursorRun(blob, requests, responses, positions) && CursorStep(blob, positions[|requests|], q, r, pos)
    ensures CursorRun(blob, requests + [q], responses + [r], positions + [pos])
  {
    hide CursorStep;
    var requests', responses', positions' := requests + [q], responses + [r], positions + [pos];
    forall i | 0 <= i < |requests'|
      ensures CursorStep(blob, positions'[i], requests'[i], responses'[i], positions'[i + 1])
    {
      if i < |requests| {
        assert CursorStep(blob, positions[i], requests[i], responses[i], positions[i + 1]);
      }
    }
  }

  /** Passes a request on. Unless a hole does harm, the answer is that of a cursor. */
  method Answer(reader: ChunkedReader, request: Request) returns (response: Response)
    requires reader.Valid()
    modifies reader
    ensures reader.Valid()
    ensures old(reader.InSync()) && reader.Harmless() ==>
      reader.InSync() && CursorStep(reader.blob, old(reader.pos), request, response, reader.pos)
    ensures old(reader.InSync()) && request.Read? && response.Data? ==>
      reader.InSync() && CursorStep(reader.blob, old(reader.pos), request, response, reader.pos)
    ensures request.Read? ==> response.Data? || (response.Failed? && !reader.Harmless())
    ensures request.Read? && response.Data? ==>
      reader.next >= old(reader.next) && reader.AllPresent(old(reader.next), reader.next)
    ensures request.Read? && request.max > 0 && response == Data([]) ==> reader.next == |reader.chunks|
  {
    match request
    case Read(max) =>
      var r := reader.PollRead(max);
      if r.Err? {
        return Failed(r.error);
      }
      return Data(r.value);
    case Seek(from) =>
      var r := reader.StartSeek(from);
      if r.Err? {
        return Failed(r.error);
      }
      return Sought;
  }

  /** Over every sequence of reads and seeks, a reader no hole of which does harm answers like a cursor over the
      concatenated chunks. */
  method AnswerAll(reader: ChunkedReader, requests: seq<Request>)
      returns (responses: seq<Response>, ghost positions: seq<nat>)
    requires reader.Valid() && reader.InSync() && reader.Harmless()
    modifies reader
    ensures CursorRun(reader.blob, requests, responses, positions)
    ensures positions[0] == old(reader.pos) && positions[|requests|] == reader.pos
  {
    hide CursorStep, ChunkedReader.Valid, ChunkedReader.InSync, ChunkedReader.Harmless, ChunkedReader.AllPresent;
    responses, positions := [], [reader.pos];
    assert requests[..0] == [];
    for i := 0 to |requests|
      invariant reader.Valid() && reader.InSync() && |positions| == i + 1
      invariant CursorRun(reader.blob, requests[..i], responses, positions)
      invariant positions[0] == old(reader.pos) && positions[i] == reader.pos
    {
      var response := Answer(reader, requests[i]);
      CursorRunExtends(reader.blob, requests[..i], responses, positions, requests[i], response, reader.pos);
      assert requests[..i + 1] == requests[..i] + [requests[i]];
      responses, positions := responses + [response], positions + [reader.pos];
    }
    assert requests[..|requests|] == requests;
  }

  /** A failed read is no answer of any cursor. */
  lemma {:induction false} FailedReadIsNoCursor(blob: Bytes, requests: seq<Request>, responses: seq<Response>,
        positions: seq<nat>, i: nat)
    requires i < |requests| && i < |responses| && requests[i].Read? && responses[i].Failed?
    ensures !CursorRun(blob, requests, responses, positions)
  {
    assert |positions| == |requests| + 1 ==>
      !CursorStep(blob, positions[i], requests[i], responses[i], positions[i + 1]);
  }

  /** In a reader that has not been used, all chunks before the next one are empty ones at the start. */
  lemma {:induction false} UnreadSkipsNothing(reader: ChunkedReader)
    requires reader.Unread()
    ensures reader.AllPresent(reader.next, |reader.chunks|) ==> reader.Harmless()
    ensures reader.Harmless() ==> reader.AllPresent(reader.next, |reader.chunks|)
  {
    var chunks, next := reader.chunks, reader.next;
    forall i: nat | i < next ensures End(chunks[i]) == 0 {
      if next < |chunks| {
        LaidInOrder(chunks, i, next);
      } else {
        EndOf(chunks, i);
      }
    }
    forall i: nat | next <= i < |chunks| ensures End(chunks[i]) > 0 {
      if next < i { LaidInOrder(chunks, next, i); }
    }
  }

  /** The converse: reading an unused reader byte by byte is answered like by a cursor exactly if no hole does harm. */
  method ReadByBytes(reader: ChunkedReader)
      returns (requests: seq<Request>, responses: seq<Response>, ghost positions: seq<nat>)
    requires reader.Unread()
    modifies reader
    ensures reader.Harmless() ==> CursorRun(reader.blob, requests, responses, positions)
    ensures !reader.Harmless() ==> forall blob, ps :: !CursorRun(blob, requests, responses, ps)
  {
    UnreadSkipsNothing(reader);
    ghost var first := reader.next;
    hide CursorStep;
    requests, responses, positions := [], [], [0];
    var len := BlobLength(reader.chunks);
    for k := 0 to len + 1
      invariant reader.Valid() && reader.InSync() && |requests| == k
      invariant CursorRun(reader.blob, requests, responses, positions) && positions[k] == reader.pos
      invariant first <= reader.next && reader.AllPresent(first, reader.next)
      invariant reader.pos >= k || reader.next == |reader.chunks|
    {
      var response := Answer(reader, Read(1));
      if response.Failed? {
        requests, responses := requests + [Read(1)], responses + [response];
        forall blob, ps ensures !CursorRun(blob, requests, responses, ps) {
          FailedReadIsNoCursor(blob, requests, responses, ps, k);
        }
        return;
      }
      CursorRunExtends(reader.blob, requests, responses, positions, Read(1), response, reader.pos);
      requests, responses, positions := requests + [Read(1)], responses + [response], positions + [reader.pos];
    }
  }

  /** A hole of one byte, and one chunk behind it. */
  lemma {:induction false} HoleIsServed(service: Service, list: seq<ChunkMeta>, chunks: seq<Chunk>)
    requires list == [ChunkMeta(Unknown(0), 1), ChunkMeta(Hash([7]), 1)] && Describes(chunks, list) && Laid(chunks)
    requires service(Unknown(0)) == None && service(Hash([7])) == Some([7])
    ensures Serves(service, chunks, [0, 7])
    ensures |chunks| == 2 && chunks[0] == Chunk(0, 1, Unknown(0)) && chunks[1] == Chunk(1, 1, Hash([7]))
  {
    assert list[..1] == [list[0]] && TotalSize(list[..0]) == 0 && TotalSize(list[..1]) == 1;
    assert [0, 7][1..2] == [7];
  }

  /** After a missing chunk the reader is no cursor any more: the next read hands on the bytes behind the hole. */
  method ReadPastHole() returns (first: Result<Bytes, IoError>, second: Result<Bytes, IoError>)
    ensures first == Err(NotFound) && second == Ok([7])
  {
    var list := [ChunkMeta(Unknown(0), 1), ChunkMeta(Hash([7]), 1)];
    var service: Service := (d: BlobDigest) => if d == Hash([7]) then Some([7]) else None;
    ghost var blob: Bytes := [0, 7];
    assert TotalSize(list) == 2 by {
      assert list[..1] == [list[0]] && TotalSize(list[..1]) == 1;
    }
    hide Laid, Describes, Serves, ChunkedReader.Valid, TotalSize;
    forall chunks: seq<Chunk> | Laid(chunks) && Describes(chunks, list) ensures Serves(service, chunks, blob) {
      HoleIsServed(service, list, chunks);
    }
    var reader := new ChunkedReader(list, service, blob);
    assert Laid(reader.chunks) by { ValidIsLaid(reader); }
    HoleIsServed(service, list, reader.chunks);
    assert reader.Missing(0) && !reader.Missing(1);
    first := reader.PollRead(1);
    second := reader.PollRead(1);
    assert blob[1..2] == [7];
  }

  lemma {:induction false} ValidIsLaid(reader: ChunkedReader)
    requires reader.Valid()
    ensures Laid(reader.chunks)
  {
  }
}

/** Content-addressed blob services: opening a blob that may be split up, and the local/remote combinator. */
module BlobServices {
  import opened Prelude
  import opened ChunkedReaders

  // ---------- Chunk lists ----------

  function ContentOf(m: ChunkMeta): Bytes {
    if m.digest.Hash? then m.digest.content else []
  }

  function Assemble(list: seq<ChunkMeta>): Bytes {
    if list == [] then [] else Assemble(list[..|list| - 1]) + ContentOf(list[|list| - 1])
  }

  /** A chunk that records the digest and the size of a non-empty piece. */
  predicate IsPiece(m: ChunkMeta) {
    m.digest.Hash? && m.digest.content != [] && m.size == |m.digest.content|
  }

  ghost predicate ArePieces(list: seq<ChunkMeta>) {
    forall i :: 0 <= i < |list| ==> IsPiece(list[i])
  }

  lemma {:induction false} AssembledSize(list: seq<ChunkMeta>)
    requires ArePieces(list)
    ensures |Assemble(list)| == TotalSize(list)
  {
    if list != [] {
      AssembledSize(list[..|list| - 1]);
    }
  }

  lemma {:induction false} SliceInFront(front: Bytes, last: Bytes, a: nat, b: nat)
    requires a <= b <= |front|
    ensures (front + last)[a..b] == front[a..b]
  {
  }

  lemma {:induction false} AssembledLast(list: seq<ChunkMeta>)
    requires ArePieces(list) && list != []
    ensures var n := |list| - 1; ArePieces(list[..n]) && |ContentOf(list[n])| == list[n].size
    ensures var n := |list| - 1; Assemble(list) == Assemble(list[..n]) + ContentOf(list[n])
    ensures |Assemble(list[..|list| - 1])| == TotalSize(list[..|list| - 1])
  {
    AssembledSize(list[..|list| - 1]);
    assert IsPiece(list[|list| - 1]);
  }

  /** Each chunk is the slice of the whole between its offsets. */
  lemma {:induction false} AssembledSlice(list: seq<ChunkMeta>, i: nat)
    requires ArePieces(list) && i < |list|
    ensures TotalSize(list[..i]) + list[i].size <= |Assemble(list)|
    ensures Assemble(list)[TotalSize(list[..i])..TotalSize(list[..i]) + list[i].size] == ContentOf(list[i])
  {
    hide Assemble, TotalSize, ArePieces, ContentOf;
    AssembledLast(list);
    var n := |list| - 1;
    var front, last, at := Assemble(list[..n]), ContentOf(list[n]), TotalSize(list[..i]);
    if i < n {
      AssembledSlice(list[..n], i);
      assert list[..n][..i] == list[..i] && list[..n][i] == list[i];
      SliceInFront(front, last, at, at + list[i].size);
    } else {
      assert (front + last)[|front|..] == last;
    }
  }

  /** Two pieces or more are each shorter than the whole. */
  lemma {:induction false} PiecesAreShorter(list: seq<ChunkMeta>, i: nat)
    requires ArePieces(list) && |list| >= 2 && i < |list|
    ensures |ContentOf(list[i])| < |Assemble(list)|
  {
    AssembledSlice(list, i);
    var k := if i == 0 then 1 else 0;
    AssembledSlice(list, k);
    if k < i {
      PrefixSize(list[..i], 1);
      assert list[..i][..1] == list[..1] && list[..1][..0] == list[..0];
      assert TotalSize(list[..1]) == list[0].size;
    } else {
      assert list[..1][..0] == list[..0];
      assert TotalSize(list[..1]) == list[0].size;
    }
  }

  lemma {:induction false} PieceIsServed(list: seq<ChunkMeta>, chunks: seq<Chunk>, i: nat)
    requires ArePieces(list) && Describes(chunks, list) && i < |list|
    ensures End(chunks[i]) <= |Assemble(list)|
    ensures Assemble(list)[chunks[i].offset..End(chunks[i])] == ContentOf(list[i])
  {
    AssembledSlice(list, i);
  }

  lemma {:induction false} PiecesAreServed(list: seq<ChunkMeta>, service: Service, chunks: seq<Chunk>)
    requires ArePieces(list) && Laid(chunks) && Describes(chunks, list)
    requires forall i :: 0 <= i < |list| ==> service(list[i].digest) == Some(ContentOf(list[i]))
    ensures Serves(service, chunks, Assemble(list))
  {
    assert |Assemble(list)| == BlobLength(chunks) by {
      AssembledSize(list);
    }
    hide Laid;
    forall i | 0 <= i < |list| ensures service(chunks[i].digest) == Some(ContentOf(list[i]))
      ensures End(chunks[i]) <= |Assemble(list)|
      ensures Assemble(list)[chunks[i].offset..End(chunks[i])] == ContentOf(list[i])
    {
      PieceIsServed(list, chunks, i);
    }
  }

  lemma {:induction false} PiecesAreAllShorter(list: seq<ChunkMeta>)
    requires ArePieces(list) && |list| >= 2
    ensures forall i :: 0 <= i < |list| ==> |ContentOf(list[i])| < |Assemble(list)|
  {
    forall i | 0 <= i < |list| ensures |ContentOf(list[i])| < |Assemble(list)| {
      PiecesAreShorter(list, i);
    }
  }

  // ---------- Opening and reading ----------

  /** What a service finds for a digest: nothing, the blob, or a list of chunks to be read through the service again. */
  datatype Answer = Absent | Whole(bytes: Bytes) | Split(list: seq<ChunkMeta>)

  type Opener = BlobDigest -> Answer

  /** Whole blobs are right, and chunk lists split the blob into two or more pieces, all of which can be opened. */
  ghost predicate AnswerOk(open: Opener, d: BlobDigest) {
    match open(d)
    case Absent => true
    case Whole(bytes) => d == Hash(bytes)
    case Split(list) =>
      && |list| >= 2 && ArePieces(list) && d == Hash(Assemble(list)) && |Assemble(list)| < TWO64
      && forall i :: 0 <= i < |list| ==> open(list[i].digest) != Absent
  }

  ghost predicate OpensContent(open: Opener) {
    forall d :: AnswerOk(open, d)
  }

  ghost function Weight(d: BlobDigest): nat {
    if d.Hash? then |d.content| else 0
  }

  /** Reads a blob to the end. The recursion is on chunks that are shorter than the blob. */
  function ReadAll(open: Opener, d: BlobDigest): (r: Option<Bytes>)
    requires OpensContent(open)
    ensures r.None? <==> open(d) == Absent
    ensures r.Some? ==> d == Hash(r.value)
    decreases Weight(d), 1, 0
  {
    assert AnswerOk(open, d);
    match open(d)
    case Absent => None
    case Whole(bytes) => Some(bytes)
    case Split(list) =>
      PiecesAreAllShorter(list);
      ReadChunks(open, d, list)
  }

  /** Reads chunk after chunk; a missing one would be an error. */
  function ReadChunks(open: Opener, d: BlobDigest, list: seq<ChunkMeta>): (r: Option<Bytes>)
    requires OpensContent(open) && ArePieces(list)
    requires forall i :: 0 <= i < |list| ==> open(list[i].digest) != Absent && |ContentOf(list[i])| < Weight(d)
    ensures r == Some(Assemble(list))
    decreases Weight(d), 0, |list|
  {
    if list == [] then Some([])
    else
      var n := |list| - 1;
      assert IsPiece(list[n]) && |ContentOf(list[n])| < Weight(d);
      var front := ReadChunks(open, d, list[..n]);
      var last := ReadAll(open, list[n].digest);
      if front.Some? && last.Some? then Some(front.value + last.value) else None
  }

  datatype Reader = Cursor(bytes: Bytes) | Chunked(reader: ChunkedReader)

  /** The reader is a complete cursor over `content`: at the start, in sync, and with no chunk missing. */
  ghost predicate Reads(r: Reader, content: Bytes)
    reads if r.Chunked? then {r.reader} else {}
  {
    match r
    case Cursor(bytes) => bytes == content
    case Chunked(reader) =>
      reader.Valid() && reader.InSync() && reader.pos == 0 && reader.blob == content && reader.NoHoles()
  }

  /** A chunked reader for a list whose pieces the service all has. */
  method OpenChunked(list: seq<ChunkMeta>, service: Service) returns (r: Reader)
    requires list != [] && ArePieces(list) && |Assemble(list)| < TWO64
    requires forall i :: 0 <= i < |list| ==> service(list[i].digest) == Some(ContentOf(list[i]))
    ensures Reads(r, Assemble(list)) && (r.Chunked? ==> fresh(r.reader))
  {
    hide Laid, Serves, Assemble, IsPiece, ChunkedReader.Valid, ChunkedReader.StreamOffset;
    AssembledSize(list);
    forall chunks: seq<Chunk> | Laid(chunks) && Describes(chunks, list)
      ensures Serves(service, chunks, Assemble(list))
    {
      PiecesAreServed(list, service, chunks);
    }
    var reader := new ChunkedReader(list, service, Assemble(list));
    assert forall i :: 0 <= i < |list| ==> reader.chunks[i].digest == list[i].digest;
    r := Chunked(reader);
  }

  /** Opens a blob; chunks are opened, later, in the same way. */
  method OpenRead(open: Opener, d: BlobDigest) returns (r: Option<Reader>)
    requires OpensContent(open)
    ensures r.None? <==> open(d) == Absent
    ensures r.Some? ==> d.Hash? && Reads(r.value, d.content) && (r.value.Chunked? ==> fresh(r.value.reader))
  {
    assert AnswerOk(open, d);
    match open(d)
    case Absent =>
      return None;
    case Whole(bytes) =>
      return Some(Cursor(bytes));
    case Split(list) =>
      var reader := OpenChunked(list, (x: BlobDigest) => ReadAll(open, x));
      return Some(reader);
  }

  /** Reading any opened blob to the end gives exactly its content, and never fails. */
  method ReadToEnd(r: Reader, max: nat, ghost content: Bytes) returns (bytes: Bytes)
    requires Reads(r, content) && max > 0
    modifies if r.Chunked? then {r.reader} else {}
    ensures bytes == content
  {
    match r
    case Cursor(b) =>
      return b;
    case Chunked(reader) =>
      var rest := reader.ReadToEnd(max);
      assert content[0..] == content;
      return rest.value;
  }

  // ---------- Local first, then remote ----------

  /** The reading side of a blob service. */
  datatype BlobService = BlobService(
    has: BlobDigest -> bool,
    read: BlobDigest -> Option<Bytes>,
    chunks: BlobDigest -> Option<seq<ChunkMeta>>)

  /** What the service hands out for a digest is its content, and chunk lists assemble to it. */
  ghost predicate ContentAddressed(s: BlobService) {
    && (forall d :: s.has(d) ==> d.Hash? && s.read(d) == Some(d.content))
    && (forall d :: s.chunks(d).Some? <==> s.has(d))
    && (forall d :: s.chunks(d).Some? && s.chunks(d).value != [] ==> ListOk(s, d, s.chunks(d).value))
  }

  ghost predicate ListOk(s: BlobService, d: BlobDigest, list: seq<ChunkMeta>) {
    && |list| >= 2 && ArePieces(list) && d == Hash(Assemble(list)) && |Assemble(list)| < TWO64
    && forall i :: 0 <= i < |list| ==> s.has(list[i].digest)
  }

  /** Absence and presence of a blob that is read directly. */
  function Direct(found: Option<Bytes>): Answer {
    if found.Some? then Whole(found.value) else Absent
  }

  /** The local service if it has the blob, else the chunks the remote one lists, else the remote one. */
  function CombinedAnswer(local: BlobService, remote: BlobService, d: BlobDigest): Answer {
    if local.has(d) then Direct(local.read(d))
    else match remote.chunks(d)
      case None => Absent
      case Some(list) => if list == [] then Direct(remote.read(d)) else Split(list)
  }

  function Combined(local: BlobService, remote: BlobService): Opener {
    d => CombinedAnswer(local, remote, d)
  }

  /** What the local service has is read from it, whatever the remote one says. */
  lemma {:induction false} LocalNeedsNoRemote(local: BlobService, remote: BlobService, d: BlobDigest)
    requires ContentAddressed(local) && local.has(d)
    ensures d.Hash? && Combined(local, remote)(d) == Whole(d.content)
  {
  }

  lemma {:induction false} CombinedFinds(local: BlobService, remote: BlobService, d: BlobDigest)
    requires ContentAddressed(local) && ContentAddressed(remote)
    ensures Combined(local, remote)(d) == Absent <==> !(local.has(d) || remote.has(d))
  {
  }

  lemma {:induction false} CombinedOpensContent(local: BlobService, remote: BlobService)
    requires ContentAddressed(local) && ContentAddressed(remote)
    ensures OpensContent(Combined(local, remote))
  {
    var open := Combined(local, remote);
    forall d ensures AnswerOk(open, d) {
      CombinedFinds(local, remote, d);
      if open(d).Split? {
        var list := open(d).list;
        assert ListOk(remote, d, list);
        forall i | 0 <= i < |list| ensures open(list[i].digest) != Absent {
          CombinedFinds(local, remote, list[i].digest);
        }
      }
    }
  }

  /** Finds a blob exactly when either side has it, and the reader delivers exactly its content. */
  method CombinedOpenRead(local: BlobService, remote: BlobService, d: BlobDigest) returns (r: Option<Reader>)
    requires ContentAddressed(local) && ContentAddressed(remote)
    ensures r.Some? <==> local.has(d) || remote.has(d)
    ensures r.Some? ==> d.Hash? && Reads(r.value, d.content) && (r.value.Chunked? ==> fresh(r.value.reader))
  {
    CombinedOpensContent(local, remote);
    CombinedFinds(local, remote, d);
    r := OpenRead(Combined(local, remote), d);
  }
}

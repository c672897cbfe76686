/** The blob service that splits blobs into chunks and keeps them in a key/value store. */
module ObjectStores {
  import opened Prelude
  import opened ChunkedReaders
  import opened BlobServices

  datatype Path = BlobPath(digest: BlobDigest) | ChunkPath(digest: BlobDigest)

  /** Compressed chunk data, or an encoded chunk list; both codecs are taken to be lossless. */
  datatype Object = Compressed(bytes: Bytes) | Index(list: seq<ChunkMeta>)

  type Objects = map<Path, Object>

  datatype StoreError = Backend | Invalid | ReadFailed

  // ---------- The invariant ----------

  ghost predicate ChunkOk(kv: Objects, d: BlobDigest) {
    ChunkPath(d) in kv ==> d.Hash? && kv[ChunkPath(d)] == Compressed(d.content)
  }

  /** The list splits the blob into two or more stored chunks; an empty list means the blob is one chunk, or empty. */
  ghost predicate Splits(kv: Objects, list: seq<ChunkMeta>, content: Bytes) {
    if list == [] then content == [] || ChunkPath(Hash(content)) in kv
    else
      && |list| >= 2 && ArePieces(list) && content == Assemble(list) && |content| < TWO64
      && forall i :: 0 <= i < |list| ==> ChunkPath(list[i].digest) in kv
  }

  ghost predicate BlobOk(kv: Objects, d: BlobDigest) {
    BlobPath(d) in kv ==> d.Hash? && kv[BlobPath(d)].Index? && Splits(kv, kv[BlobPath(d)].list, d.content)
  }

  /** Every listed chunk is present, and the lists concatenate to the blob. */
  ghost predicate Consistent(kv: Objects) {
    forall d :: ChunkOk(kv, d) && BlobOk(kv, d)
  }

  ghost predicate AllConsistent(states: seq<Objects>) {
    forall i :: 0 <= i < |states| ==> Consistent(states[i])
  }

  /** Nothing that was stored is removed or overwritten. */
  ghost predicate Extends(kv: Objects, kv': Objects) {
    forall p :: p in kv ==> p in kv' && kv'[p] == kv[p]
  }

  lemma {:induction false} ExtendingKeepsBlobs(kv: Objects, kv': Objects, d: BlobDigest)
    requires Consistent(kv) && Extends(kv, kv') && BlobPath(d) in kv
    ensures BlobOk(kv', d)
  {
    assert BlobOk(kv, d);
  }

  lemma {:induction false} ChunkKeepsConsistent(kv: Objects, bytes: Bytes)
    requires Consistent(kv) && ChunkPath(Hash(bytes)) !in kv
    ensures Consistent(kv[ChunkPath(Hash(bytes)) := Compressed(bytes)])
  {
    var kv' := kv[ChunkPath(Hash(bytes)) := Compressed(bytes)];
    forall d ensures ChunkOk(kv', d) && BlobOk(kv', d) {
      assert ChunkOk(kv, d);
      if BlobPath(d) in kv { ExtendingKeepsBlobs(kv, kv', d); }
    }
  }

  lemma {:induction false} IndexKeepsConsistent(kv: Objects, list: seq<ChunkMeta>, content: Bytes)
    requires Consistent(kv) && BlobPath(Hash(content)) !in kv && Splits(kv, list, content)
    ensures Consistent(kv[BlobPath(Hash(content)) := Index(list)])
  {
    var kv' := kv[BlobPath(Hash(content)) := Index(list)];
    forall d ensures ChunkOk(kv', d) && BlobOk(kv', d) {
      assert ChunkOk(kv, d);
      if BlobPath(d) in kv { ExtendingKeepsBlobs(kv, kv', d); }
    }
  }

  // ---------- Reading ----------

  predicate Has(kv: Objects, d: BlobDigest) {
    BlobPath(d) in kv || ChunkPath(d) in kv
  }

  function Chunks(kv: Objects, d: BlobDigest): Result<Option<seq<ChunkMeta>>, StoreError> {
    if BlobPath(d) in kv then
      match kv[BlobPath(d)]
      case Index(list) => Ok(Some(list))
      case Compressed(_) => Err(Invalid)
    else if ChunkPath(d) in kv then Ok(Some([]))
    else Ok(None)
  }

  /** The empty blob always, else the chunk if it is stored and has the right hash, else the chunks listed for the
      blob. */
  function Found(kv: Objects, d: BlobDigest): Result<Answer, StoreError> {
    if d == Hash([]) then Ok(Whole([]))
    else if ChunkPath(d) in kv then
      match kv[ChunkPath(d)]
      case Compressed(bytes) => if Hash(bytes) == d then Ok(Whole(bytes)) else Err(Invalid)
      case Index(_) => Err(Invalid)
    else match Chunks(kv, d)
      case Err(e) => Err(e)
      case Ok(None) => Ok(Absent)
      case Ok(Some(list)) => Ok(Split(list))
  }

  /** The store as the chunked reader sees it, when nothing in it is invalid. */
  function Opens(kv: Objects): Opener {
    d => match Found(kv, d)
      case Ok(answer) => answer
      case Err(_) => Absent
  }

  /** In a consistent store no object is invalid, and a blob is found exactly when it is there or empty. */
  lemma {:induction false} ConsistentFinds(kv: Objects, d: BlobDigest)
    requires Consistent(kv)
    ensures Found(kv, d).Ok? && Chunks(kv, d).Ok?
    ensures Found(kv, d) == Ok(Absent) <==> !(Has(kv, d) || d == Hash([]))
    ensures Chunks(kv, d) == Ok(None) <==> !Has(kv, d)
  {
    assert ChunkOk(kv, d) && BlobOk(kv, d);
  }

  /** A list that is handed to the chunked reader is never empty, and all its chunks can be opened. */
  lemma {:induction false} ConsistentOpens(kv: Objects)
    requires Consistent(kv)
    ensures OpensContent(Opens(kv))
  {
    forall d ensures AnswerOk(Opens(kv), d) {
      ConsistentFinds(kv, d);
      assert ChunkOk(kv, d) && BlobOk(kv, d);
      if Found(kv, d).value.Split? {
        var list := Found(kv, d).value.list;
        forall i | 0 <= i < |list| ensures Opens(kv)(list[i].digest) != Absent {
          ConsistentFinds(kv, list[i].digest);
        }
      }
    }
  }

  /** The object that is looked at for `d` is not what belongs there. */
  ghost predicate Damaged(kv: Objects, d: BlobDigest) {
    && d != Hash([])
    && if ChunkPath(d) in kv then d.Unknown? || kv[ChunkPath(d)] != Compressed(d.content)
       else BlobPath(d) in kv && kv[BlobPath(d)].Compressed?
  }

  /** Opens a blob: an error exactly for a damaged object, and otherwise a reader exactly if the blob is there or
      empty. */
  method OpenStored(kv: Objects, d: BlobDigest) returns (r: Result<Option<Reader>, StoreError>)
    requires Found(kv, d).Ok? && Found(kv, d).value.Split? ==> Consistent(kv)
    ensures r.Err? <==> Damaged(kv, d)
    ensures Consistent(kv) ==> r.Ok?
    ensures r.Ok? ==> (r.value.Some? <==> Has(kv, d) || d == Hash([]))
    ensures r.Ok? && r.value.Some? ==> d.Hash? && Reads(r.value.value, d.content)
    ensures r.Ok? && r.value.Some? && r.value.value.Chunked? ==> fresh(r.value.value.reader)
  {
    if Consistent(kv) { ConsistentFinds(kv, d); }
    var found := Found(kv, d);
    match found
    case Err(e) =>
      return Err(e);
    case Ok(Absent) =>
      return Ok(None);
    case Ok(Whole(bytes)) =>
      return Ok(Some(Cursor(bytes)));
    case Ok(Split(list)) =>
      ConsistentOpens(kv);
      var reader := OpenRead(Opens(kv), d);
      return Ok(reader);
  }

  /** The store as a blob service, for use behind a combinator. */
  function ServiceOf(kv: Objects): BlobService
    requires Consistent(kv)
  {
    ConsistentOpens(kv);
    BlobService(
      d => Has(kv, d),
      d => ReadAll(Opens(kv), d),
      d => match Chunks(kv, d) case Ok(list) => list case Err(_) => None)
  }

  lemma {:induction false} StoreIsContentAddressed(kv: Objects)
    requires Consistent(kv)
    ensures ContentAddressed(ServiceOf(kv))
  {
    hide OpensContent;
    var s := ServiceOf(kv);
    ConsistentOpens(kv);
    forall d ensures s.has(d) ==> d.Hash? && s.read(d) == Some(d.content) {
      ConsistentFinds(kv, d);
      assert s.read(d) == ReadAll(Opens(kv), d);
    }
    forall d ensures s.chunks(d).Some? <==> s.has(d) {
      ConsistentFinds(kv, d);
    }
    forall d | s.chunks(d).Some? && s.chunks(d).value != [] ensures ListOk(s, d, s.chunks(d).value) {
      assert BlobOk(kv, d);
    }
  }

  // ---------- Writing ----------

  /** A key/value store. Unless it is reliable requests may fail, a write before or after taking effect. */
  class ObjectStore {
    var kv: Objects
    const reliable: bool
    ghost var history: seq<Objects>  // the contents after each write

    constructor (reliable: bool)
      ensures kv == map[] && history == [] && this.reliable == reliable && Consistent(kv)
    {
      kv, history := map[], [];
      this.reliable := reliable;
    }

    method Head(p: Path) returns (r: Result<bool, StoreError>)
      ensures r.Ok? ==> r.value == (p in kv)
      ensures reliable ==> r.Ok?
    {
      var fails: bool := *;
      r := if fails && !reliable then Err(Backend) else Ok(p in kv);
    }

    method Put(p: Path, o: Object) returns (r: Result<(), StoreError>)
      modifies this
      ensures history == old(history) + [kv]
      ensures kv == old(kv)[p := o] || (r.Err? && kv == old(kv))
      ensures reliable ==> r.Ok?
    {
      var takesEffect: bool, fails: bool := *, *;
      if reliable || takesEffect {
        kv := kv[p := o];
      }
      history := history + [kv];
      r := if reliable || (takesEffect && !fails) then Ok(()) else Err(Backend);
    }
  }

  /** The store changed by writes that each kept it consistent, and took nothing away. */
  ghost predicate Grew(h: seq<Objects>, kv: Objects, h': seq<Objects>, kv': Objects) {
    h <= h' && Extends(kv, kv') && (Consistent(kv) ==> Consistent(kv') && AllConsistent(h'[|h|..]))
  }

  lemma {:induction false} GrewFurther(h: seq<Objects>, kv: Objects, h1: seq<Objects>, kv1: Objects,
        h2: seq<Objects>, kv2: Objects)
    requires Grew(h, kv, h1, kv1) && Grew(h1, kv1, h2, kv2)
    ensures Grew(h, kv, h2, kv2)
  {
    hide Consistent;
    assert h2[|h|..] == h1[|h|..] + h2[|h1|..];
  }

  /** Uploads a chunk that is not there yet. */
  method UploadChunk(store: ObjectStore, bytes: Bytes) returns (r: Result<ChunkMeta, StoreError>)
    requires |bytes| < TWO64
    modifies store
    ensures Grew(old(store.history), old(store.kv), store.history, store.kv) && (store.reliable ==> r.Ok?)
    ensures r.Ok? ==> r.value == ChunkMeta(Hash(bytes), |bytes|) && ChunkPath(Hash(bytes)) in store.kv
  {
    var path := ChunkPath(Hash(bytes));
    var present := store.Head(path);
    if present.Err? {
      return Err(present.error);
    }
    if !present.value {
      if Consistent(store.kv) { ChunkKeepsConsistent(store.kv, bytes); }
      var put := store.Put(path, Compressed(bytes));
      if put.Err? {
        return Err(put.error);
      }
    }
    return Ok(ChunkMeta(Hash(bytes), |bytes|));
  }

  // ---------- Chunking ----------

  function Concat(pieces: seq<Bytes>): Bytes {
    if pieces == [] then [] else Concat(pieces[..|pieces| - 1]) + pieces[|pieces| - 1]
  }

  ghost predicate NonEmpty(pieces: seq<Bytes>) {
    forall i :: 0 <= i < |pieces| ==> pieces[i] != []
  }

  lemma {:induction false} PieceFits(pieces: seq<Bytes>, i: nat)
    requires i < |pieces|
    ensures |pieces[i]| <= |Concat(pieces)|
  {
    var n := |pieces| - 1;
    if i < n { PieceFits(pieces[..n], i); }
  }

  /** The records of the pieces, all of which are stored. */
  ghost predicate Recorded(kv: Objects, metas: seq<ChunkMeta>, pieces: seq<Bytes>) {
    && |metas| == |pieces| && ArePieces(metas)
    && forall i :: 0 <= i < |metas| ==> metas[i].digest == Hash(pieces[i]) && ChunkPath(metas[i].digest) in kv
  }

  lemma {:induction false} RecordedChunks(kv: Objects, metas: seq<ChunkMeta>, pieces: seq<Bytes>)
    requires Recorded(kv, metas, pieces)
    ensures forall i :: 0 <= i < |pieces| ==> ChunkPath(Hash(pieces[i])) in kv
  {
    forall i | 0 <= i < |pieces| ensures ChunkPath(Hash(pieces[i])) in kv {
      assert ChunkPath(metas[i].digest) in kv;
    }
  }

  lemma {:induction false} RecordsAssemble(kv: Objects, metas: seq<ChunkMeta>, pieces: seq<Bytes>)
    requires Recorded(kv, metas, pieces)
    ensures Assemble(metas) == Concat(pieces)
  {
    if metas != [] {
      var n := |metas| - 1;
      RecordsAssemble(kv, metas[..n], pieces[..n]);
    }
  }

  /** What is written for the blob describes it: fewer than two pieces are not listed. */
  lemma {:induction false} RecordsSplit(kv: Objects, metas: seq<ChunkMeta>, pieces: seq<Bytes>)
    requires Recorded(kv, metas, pieces) && |Concat(pieces)| < TWO64
    ensures Splits(kv, if |metas| < 2 then [] else metas, Concat(pieces))
  {
    RecordsAssemble(kv, metas, pieces);
    if |pieces| == 1 {
      assert pieces[..0] == [] && Concat(pieces) == [] + pieces[0] == pieces[0];
      assert ChunkPath(metas[0].digest) in kv;
    }
  }

  /** Uploads the pieces in turn; each write keeps the store consistent. */
  method UploadPieces(store: ObjectStore, pieces: seq<Bytes>) returns (r: Result<seq<ChunkMeta>, StoreError>)
    requires NonEmpty(pieces) && |Concat(pieces)| < TWO64
    modifies store
    ensures Grew(old(store.history), old(store.kv), store.history, store.kv)
    ensures r.Ok? ==> Recorded(store.kv, r.value, pieces)
    ensures store.reliable ==> r.Ok?
  {
    hide Concat, Consistent;
    var metas := [];
    for i := 0 to |pieces|
      invariant Grew(old(store.history), old(store.kv), store.history, store.kv)
      invariant Recorded(store.kv, metas, pieces[..i])
    {
      PieceFits(pieces, i);
      ghost var h, kv := store.history, store.kv;
      var meta := UploadChunk(store, pieces[i]);
      GrewFurther(old(store.history), old(store.kv), h, kv, store.history, store.kv);
      if meta.Err? {
        return Err(meta.error);
      }
      metas := metas + [meta.value];
    }
    assert pieces[..|pieces|] == pieces;
    return Ok(metas);
  }

  /** Chunks a stream, that may break off with an error, and uploads first the chunks and then the list of them. */
  method ChunkAndUpload(store: ObjectStore, pieces: seq<Bytes>, broken: bool)
      returns (r: Result<BlobDigest, StoreError>)
    requires NonEmpty(pieces) && |Concat(pieces)| < TWO64
    modifies store
    ensures Grew(old(store.history), old(store.kv), store.history, store.kv)
    ensures r.Ok? ==> r.value == Hash(Concat(pieces)) && BlobPath(r.value) in store.kv
    ensures r.Ok? ==> forall i :: 0 <= i < |pieces| ==> ChunkPath(Hash(pieces[i])) in store.kv
    ensures broken ==> r.Err?
    ensures store.reliable && !broken ==> r.Ok?
  {
    hide Consistent, Concat, Splits, Recorded;
    var uploaded := UploadPieces(store, pieces);
    if uploaded.Err? {
      return Err(uploaded.error);
    }
    RecordedChunks(store.kv, uploaded.value, pieces);
    if broken {
      return Err(ReadFailed);
    }
    var metas := if |uploaded.value| < 2 then [] else uploaded.value;
    var path := BlobPath(Hash(Concat(pieces)));
    var present := store.Head(path);
    if present.Err? {
      return Err(present.error);
    }
    if !present.value {
      RecordsSplit(store.kv, uploaded.value, pieces);
      if Consistent(store.kv) { IndexKeepsConsistent(store.kv, metas, Concat(pieces)); }
      ghost var h, kv := store.history, store.kv;
      var put := store.Put(path, Index(metas));
      GrewFurther(old(store.history), old(store.kv), h, kv, store.history, store.kv);
      if put.Err? {
        return Err(put.error);
      }
    }
    return Ok(Hash(Concat(pieces)));
  }

  /** What was uploaded is read back, now and after any further uploads. */
  method UploadAndReadBack(store: ObjectStore, pieces: seq<Bytes>, later: seq<seq<Bytes>>, max: nat)
      returns (r: Result<Bytes, StoreError>)
    requires Consistent(store.kv) && NonEmpty(pieces) && |Concat(pieces)| < TWO64 && max > 0
    requires forall i :: 0 <= i < |later| ==> NonEmpty(later[i]) && |Concat(later[i])| < TWO64
    modifies store
    ensures r.Ok? ==> r.value == Concat(pieces)
    ensures store.reliable ==> r.Ok?
  {
    hide Consistent, Concat, NonEmpty, Reads;
    var digest := ChunkAndUpload(store, pieces, false);
    if digest.Err? {
      return Err(digest.error);
    }
    for i := 0 to |later|
      invariant Consistent(store.kv) && Has(store.kv, digest.value)
    {
      var _ := ChunkAndUpload(store, later[i], false);
    }
    assert Found(store.kv, digest.value).Ok? by { ConsistentFinds(store.kv, digest.value); }
    var reader := OpenStored(store.kv, digest.value);
    var bytes := ReadToEnd(reader.value.value, max, Concat(pieces));
    return Ok(bytes);
  }
}

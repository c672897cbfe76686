/** Directory stores, the validating putter in front of them, and the near/far cache. */
module DirectoryServices {
  import opened Prelude
  import opened Directories
  import opened GraphStates
  import opened ValidatedGraphs
  import opened DirectoryGraphs
  import opened ClosureStreams

  type Store = map<Digest, Directory>

  /** No stored directory refers to one that is missing. */
  ghost predicate ReferenceClosed(db: Store) {
    forall g, c :: g in db && References(db[g], c) ==> c in db
  }

  /** `db` with every directory of the closure of `root` added. */
  ghost function WithClosure(db: Store, root: Digest): Store {
    db + map x | x in Reach(root) && x.Blake3? :: x.preimage
  }

  ghost predicate AllClosed(states: seq<Store>) {
    forall i :: 0 <= i < |states| ==> ReferenceClosed(states[i])
  }

  /** A backing store. Unless it is reliable a write may fail, before or after taking effect, or report another
      digest. */
  class DirectoryStore {
    var db: Store
    const reliable: bool
    ghost var history: seq<Store>  // the contents after each write

    constructor (reliable: bool)
      ensures db == map[] && history == [] && this.reliable == reliable
    {
      db, history := map[], [];
      this.reliable := reliable;
    }

    method Get(g: Digest) returns (r: Result<Option<Directory>, ServiceError>)
      ensures r == Ok(None) <==> g !in db
      ensures Holds(db, g) ==> r == Ok(Some(g.preimage))
      ensures g in db && !Holds(db, g) ==> r == Err(Corrupted(g))
    {
      r := Lookup(db, g);
    }

    method Put(d: Directory) returns (r: Result<Digest, ServiceError>)
      modifies this
      ensures history == old(history) + [db]
      ensures db == old(db) || db == old(db)[DigestOf(d) := d]
      ensures r == Ok(DigestOf(d)) ==> db == old(db)[DigestOf(d) := d]
      ensures reliable ==> r == Ok(DigestOf(d))
    {
      var takesEffect: bool, fails: bool, other: Digest := *, *, *;
      if reliable || takesEffect {
        db := db[DigestOf(d) := d];
      }
      history := history + [db];
      if reliable || (takesEffect && !fails) {
        return Ok(DigestOf(d));
      } else if fails || other == DigestOf(d) {
        return Err(Backend);
      } else {
        return Ok(other);
      }
    }
  }

  /** What was put, and acknowledged, is what is got; other digests are not affected. */
  method PutThenGet(store: DirectoryStore, d: Directory)
      returns (put: Result<Digest, ServiceError>, got: Result<Option<Directory>, ServiceError>)
    modifies store
    ensures put == Ok(DigestOf(d)) ==> got == Ok(Some(d))
    ensures forall g :: g != DigestOf(d) ==> Lookup(store.db, g) == old(Lookup(store.db, g))
  {
    put := store.Put(d);
    got := store.Get(DigestOf(d));
  }

  /** `db` after the first `n` directories of `ds` were written. */
  ghost function Written(db: Store, ds: seq<Directory>): Store {
    if ds == [] then db else Written(db, ds[..|ds| - 1])[DigestOf(ds[|ds| - 1]) := ds[|ds| - 1]]
  }

  lemma {:induction false} WrittenHolds(db: Store, ds: seq<Directory>)
    ensures forall x :: x in Written(db, ds) <==> x in db || Lists(ds, x)
    ensures forall x :: x in Written(db, ds) ==> Written(db, ds)[x] == if Lists(ds, x) then x.preimage else db[x]
  {
    if ds != [] {
      var n := |ds| - 1;
      WrittenHolds(db, ds[..n]);
      assert ds == ds[..n] + [ds[n]];
      ListsNext(ds[..n], ds[n]);
    }
  }

  lemma {:induction false} WrittenClosure(db: Store, ds: seq<Directory>, root: Digest)
    requires Enumerates(ds, root)
    ensures Written(db, ds) == WithClosure(db, root)
  {
    hide Reach;
    WrittenHolds(db, ds);
  }

  /** Writing a child-first list keeps a closed store closed at every step. */
  lemma {:induction false} WriteKeepsClosed(db: Store, ds: seq<Directory>, n: nat)
    requires n < |ds| && LeavesFirst(ds) && ReferenceClosed(Written(db, ds[..n]))
    ensures ReferenceClosed(Written(db, ds[..n])[DigestOf(ds[n]) := ds[n]])
  {
    WrittenHolds(db, ds[..n]);
    var db0 := Written(db, ds[..n]);
    var db' := db0[DigestOf(ds[n]) := ds[n]];
    forall g, c | g in db' && References(db'[g], c) ensures c in db' {
      if g == DigestOf(ds[n]) {
        assert Lists(ds[..n], c);
      }
    }
  }

  /** Validates directories leaves first, and writes them on close. */
  class SimplePutter {
    const store: DirectoryStore
    var validator: DirectoryGraph?
    ghost var cs: seq<Config>
    ghost var ds: seq<Directory>
    ghost var rs: seq<Result<(), GraphError>>

    /** The log is a run of the validator, whose last state is the current one. */
    ghost predicate Valid()
      reads this, validator
    {
      && (validator != null ==> Run(cs, ds, rs) && cs[0].o == LeavesToRoot({}))
      && (validator != null ==> cs[|ds|] == validator.Cfg() && Indexed(validator.Val()))
    }

    constructor (store: DirectoryStore)
      ensures Valid() && this.store == store && validator != null && fresh(validator) && ds == [] && rs == []
    {
      this.store := store;
      var v := new DirectoryGraph(LeavesToRoot({}));
      validator := v;
      cs, ds, rs := [Config(EMPTY, LeavesToRoot({}))], [], [];
    }

    method Put(d: Directory) returns (r: Result<(), ServiceError>)
      requires Valid()
      modifies this, validator
      ensures Valid() && validator == old(validator)
      ensures validator == null ==> r == Err(AlreadyClosed)
      ensures validator != null ==> ds == old(ds) + [d] && |rs| == |ds| && rs[..|old(rs)|] == old(rs)
      ensures validator != null ==> r == if rs[|ds| - 1].Ok? then Ok(()) else Err(Rejected(rs[|ds| - 1].error))
    {
      if validator == null {
        return Err(AlreadyClosed);
      }
      hide AddStep, Indexed;
      var added := validator.Add(d);
      RunExtends(cs, ds, rs, d, added, validator.Cfg());
      cs, ds, rs := cs + [validator.Cfg()], ds + [d], rs + [added];
      if added.Err? {
        return Err(Rejected(added.error));
      }
      return Ok(());
    }

    /** Individual writes, each acknowledged before the next. */
    method WriteAll(dirs: seq<Directory>) returns (r: Result<(), ServiceError>)
      requires LeavesFirst(dirs)
      modifies store
      ensures r.Ok? ==> store.db == Written(old(store.db), dirs)
      ensures store.reliable ==> r.Ok?
      ensures old(store.history) <= store.history
      ensures ReferenceClosed(old(store.db)) ==> AllClosed(store.history[|old(store.history)|..])
    {
      hide LeavesFirst, ReferenceClosed;
      ghost var db0, h0 := store.db, store.history;
      for i := 0 to |dirs|
        invariant store.db == Written(db0, dirs[..i])
        invariant h0 <= store.history
        invariant ReferenceClosed(db0) ==> ReferenceClosed(store.db) && AllClosed(store.history[|h0|..])
      {
        ghost var before := store.history;
        if ReferenceClosed(db0) {
          WriteKeepsClosed(db0, dirs, i);
        }
        var expected := DigestOf(dirs[i]);
        var actual := store.Put(dirs[i]);
        assert store.history[|h0|..] == before[|h0|..] + [store.db];
        assert dirs[..i + 1][..i] == dirs[..i];
        if actual.Err? {
          return Err(actual.error);
        }
        if actual.value != expected {
          return Err(Unexpected(actual.value));
        }
      }
      assert dirs[..|dirs|] == dirs;
      return Ok(());
    }

    /** What was put is a non-empty closure, and no size was rejected. */
    ghost predicate Acceptable()
      reads this
      requires |rs| == |ds|
    {
      Err(WrongSize) !in rs && Accepted(ds, rs) != {} && IsClosure(Accepted(ds, rs))
    }

    method Close() returns (r: Result<Digest, ServiceError>)
      requires Valid()
      modifies this`validator, store
      ensures Valid() && validator == null
      ensures old(validator) == null ==> r == Err(AlreadyClosed)
      ensures old(validator) == null || !old(Acceptable()) ==>
        r.Err? && store.db == old(store.db) && store.history == old(store.history)
      ensures old(validator) != null && Acceptable() ==> (store.reliable ==> r.Ok?)
      ensures old(validator) != null && r.Ok? ==>
        Accepted(ds, rs) == Reach(r.value) && store.db == WithClosure(old(store.db), r.value)
      ensures old(store.history) <= store.history
      ensures ReferenceClosed(old(store.db)) ==> AllClosed(store.history[|old(store.history)|..])
    {
      if validator == null {
        return Err(AlreadyClosed);
      }
      var graph := validator;
      validator := null;
      hide ReferenceClosed, Reach, LeavesFirst, Sound;
      RunValidates(cs, ds, rs);
      var validated := graph.Validate();
      if validated.Err? {
        return Err(Rejected(validated.error));
      }
      CleanRun(cs, ds, rs);
      var dirs := DrainLeavesToRoot(validated.value);
      if dirs == [] {
        return Err(NoDirectories);
      }
      var rootDigest := DigestOf(dirs[|dirs| - 1]);
      var written := WriteAll(dirs);
      if written.Err? {
        return Err(written.error);
      }
      WrittenClosure(old(store.db), dirs, rootDigest);
      return Ok(rootDigest);
    }
  }

  /** `far` can serve the closure of `g`: all of it is there, and every recorded size is right. */
  ghost predicate Servable(far: Store, g: Digest) {
    g in far && HoldsClosure(far, g) && SizesRight(g)
  }

  lemma {:induction false} PrefixLeavesFirst(ds: seq<Directory>, n: nat)
    requires n <= |ds| && LeavesFirst(ds)
    ensures LeavesFirst(ds[..n])
  {
    forall i, g | 0 <= i < n && References(ds[..n][i], g) ensures Lists(ds[..n][..i], g) {
      assert ds[..n][..i] == ds[..i];
    }
  }

  lemma {:induction false} PrefixRootFirst(ds: seq<Directory>, n: nat)
    requires n <= |ds| && RootFirst(ds)
    ensures RootFirst(ds[..n])
  {
    forall j | 0 < j < n ensures Mentions(ds[..n][..j], DigestOf(ds[..n][j])) {
      assert ds[..n][..j] == ds[..j];
    }
  }

  /** A closure received without rejection leaves exactly itself in the graph, with right sizes. */
  lemma {:induction false} ReceivedClosure(cs: seq<Config>, ds: seq<Directory>, rs: seq<Result<(), GraphError>>,
        g: Digest)
    requires Run(cs, ds, rs) && AllOk(rs) && (ds == [] || ReceivedAll(g, ds))
    ensures Indexed(cs[|ds|].g) && Clean(cs[|ds|].g) && Validates(cs[|ds|].g)
    ensures Filled(cs[|ds|].g) == if ds == [] then {} else Reach(g)
    ensures ds != [] ==> SizesRight(g)
  {
    hide AddStep, Reach, Clean, Distinct;
    assert Err(WrongSize) !in rs;
    CleanRun(cs, ds, rs);
    AcceptedAll(ds, rs);
    var s := Filled(cs[|ds|].g);
    if ds != [] {
      ReachClosed(g);
      assert s == Reach(g);
    }
    RunValidates(cs, ds, rs);
    if ds != [] {
      ValidatedSizes(cs[|ds|].g, g);
    }
  }

  /** A closure that comes root first, repeated directories allowed, is accepted by a graph exactly when its
      recorded sizes are right. */
  lemma {:induction false} RootFirstRevalidates(cs: seq<Config>, ds: seq<Directory>,
        rs: seq<Result<(), GraphError>>, root: Digest)
    requires Run(cs, ds, rs) && cs[0].o == RootToLeaves({root}) && ds != [] && DigestOf(ds[0]) == root
    requires RootFirst(ds) && ReceivedAll(root, ds)
    ensures AllOk(rs) <==> SizesRight(root)
    ensures AllOk(rs) ==> Validates(cs[|ds|].g) && Indexed(cs[|ds|].g) && Filled(cs[|ds|].g) == Reach(root)
  {
    if SizesRight(root) { RootFirstAccepted(cs, ds, rs, root); }
    if AllOk(rs) { ReceivedClosure(cs, ds, rs, root); }
  }

  /** The same, leaves first. */
  lemma {:induction false} LeavesFirstRevalidates(cs: seq<Config>, ds: seq<Directory>,
        rs: seq<Result<(), GraphError>>, root: Digest)
    requires Run(cs, ds, rs) && cs[0].o == LeavesToRoot({}) && ds != []
    requires LeavesFirst(ds) && Enumerates(ds, root)
    ensures AllOk(rs) <==> SizesRight(root)
    ensures AllOk(rs) ==> Validates(cs[|ds|].g) && Indexed(cs[|ds|].g) && Filled(cs[|ds|].g) == Reach(root)
  {
    if SizesRight(root) { LeavesFirstAccepted(cs, ds, rs, root); }
    if AllOk(rs) { ReceivedClosure(cs, ds, rs, root); }
  }

  lemma {:induction false} SameRoot(v: ValidatedGraph, g: Digest, empty: bool)
    requires Sound(v)
    requires (if v.root.Some? then Reach(At(v, v.root.value)) else {}) == if empty then {} else Reach(g)
    ensures v.root.None? <==> empty
    ensures v.root.Some? ==> At(v, v.root.value) == g
  {
    ReachClosed(g);
    if v.root.Some? {
      ReachClosed(At(v, v.root.value));
      if !empty {
        ReachInjective(At(v, v.root.value), g);
      }
    }
  }

  /** A stream of the closure, root first, is only rejected if some recorded size is wrong. */
  lemma {:induction false} RejectionMeansWrongSize(cs: seq<Config>, dirs: seq<Directory>,
        rs: seq<Result<(), GraphError>>, g: Digest, i: nat)
    requires i < |dirs| && Run(cs, dirs[..i + 1], rs) && cs[0].o == RootToLeaves({g}) && rs[i].Err?
    requires RootFirst(dirs) && DigestOf(dirs[0]) == g
    requires forall k :: 0 <= k < |dirs| ==> DigestOf(dirs[k]) in Reach(g)
    ensures !SizesRight(g)
  {
    assert |rs| == i + 1;
    hide Run, Reach, RootFirst, SizesRight;
    PrefixRootFirst(dirs, i + 1);
    if SizesRight(g) {
      RootFirstAccepted(cs, dirs[..i + 1], rs, g);
    }
  }

  /** A closure with right sizes, leaves first, is never rejected. */
  lemma {:induction false} LeavesFirstPrefixAccepted(cs: seq<Config>, dirs: seq<Directory>,
        rs: seq<Result<(), GraphError>>, g: Digest, i: nat)
    requires i < |dirs| && Run(cs, dirs[..i + 1], rs) && cs[0].o == LeavesToRoot({})
    requires LeavesFirst(dirs) && Enumerates(dirs, g) && SizesRight(g)
    ensures AllOk(rs)
  {
    hide Run, Reach, LeavesFirst, SizesRight;
    PrefixLeavesFirst(dirs, i + 1);
    var ds := dirs[..i + 1];
    forall k | 0 <= k < |ds| ensures DigestOf(ds[k]) in Reach(g) {
      assert Lists(dirs, DigestOf(dirs[k]));
    }
    LeavesFirstAccepted(cs, ds, rs, g);
  }

  lemma {:induction false} AcceptedClosure(ds: seq<Directory>, rs: seq<Result<(), GraphError>>, root: Digest)
    requires |rs| == |ds| && AllOk(rs) && Enumerates(ds, root)
    ensures Accepted(ds, rs) == Reach(root) && IsClosure(Reach(root)) && root in Reach(root) && Err(WrongSize) !in rs
  {
    hide Reach;
    AcceptedAll(ds, rs);
    ReachClosed(root);
  }

  /** The client accepts the stream, and it is a closure with right sizes. */
  ghost predicate RemoteServes(g: Digest, stream: seq<Directory>, broken: bool) {
    !broken && stream != [] && Admissible(g, stream) && ReceivedAll(g, stream) && SizesRight(g)
  }

  /** What any directory service promises of a recursive answer: part of the closure, root first, and all of it
      unless it failed. */
  ghost predicate StreamOf(dirs: seq<Directory>, failed: bool, g: Digest) {
    && RootFirst(dirs) && (dirs != [] ==> DigestOf(dirs[0]) == g)
    && (forall i :: 0 <= i < |dirs| ==> DigestOf(dirs[i]) in Reach(g))
    && (!failed && dirs != [] ==> ReceivedAll(g, dirs))
  }

  /** Serves from near, and otherwise copies the whole closure from far. */
  class Cache {
    const near: DirectoryStore
    const far: DirectoryStore

    constructor (near: DirectoryStore, far: DirectoryStore)
      ensures this.near == near && this.far == far
    {
      this.near, this.far := near, far;
    }

    /** Feeds a stream of directories of the closure of `g`, root first, to a fresh graph. */
    method Feed(dirs: seq<Directory>, g: Digest)
        returns (copy: DirectoryGraph, fed: Result<(), GraphError>, ghost cs: seq<Config>,
            ghost rs: seq<Result<(), GraphError>>)
      requires RootFirst(dirs) && (dirs != [] ==> DigestOf(dirs[0]) == g)
      requires forall i :: 0 <= i < |dirs| ==> DigestOf(dirs[i]) in Reach(g)
      ensures fresh(copy) && Indexed(copy.Val())
      ensures fed.Ok? ==> Run(cs, dirs, rs) && AllOk(rs) && cs[|dirs|] == copy.Cfg()
      ensures fed.Err? ==> dirs != [] && !SizesRight(g)
    {
      hide Run, AddStep, Indexed, Reach, RootFirst, SizesRight, References, ParentOf;
      copy := new DirectoryGraph(RootToLeaves({g}));
      cs, rs := [copy.Cfg()], [];
      RunStarts(copy.Cfg(), dirs[..0]);
      for i := 0 to |dirs|
        invariant Run(cs, dirs[..i], rs) && |cs| == i + 1 && |rs| == i && AllOk(rs) && cs[0].o == RootToLeaves({g})
        invariant fresh(copy) && cs[i] == copy.Cfg() && Indexed(copy.Val())
      {
        var added := copy.Add(dirs[i]);
        assert dirs[..i + 1] == dirs[..i] + [dirs[i]];
        RunExtends(cs, dirs[..i], rs, dirs[i], added, copy.Cfg());
        cs, rs := cs + [copy.Cfg()], rs + [added];
        if added.Err? {
          RejectionMeansWrongSize(cs, dirs, rs, g, i);
          fed := Err(added.error);
          return;
        }
      }
      assert dirs[..|dirs|] == dirs;
      fed := Ok(());
    }

    /** Copies a stream and validates the copy: this works out exactly if the stream did and the sizes are right. */
    method Copy(dirs: seq<Directory>, failed: bool, g: Digest) returns (r: Result<ValidatedGraph, ServiceError>)
      requires StreamOf(dirs, failed, g)
      ensures r.Ok? <==> !failed && (dirs == [] || SizesRight(g))
      ensures r.Ok? ==> Sound(r.value) && (r.value.root.None? <==> dirs == [])
      ensures r.Ok? && dirs != [] ==> At(r.value, r.value.root.value) == g
    {
      hide Run, Indexed, Reach, RootFirst, SizesRight, Sound, Validates, Clean;
      ghost var cs, rs;
      var copy, fed;
      copy, fed, cs, rs := Feed(dirs, g);
      if fed.Err? {
        return Err(Rejected(fed.error));
      }
      if failed {
        return Err(Backend);
      }
      ReceivedClosure(cs, dirs, rs, g);
      var validated := copy.Validate();
      assert validated.Ok?;  // a fully received closure validates
      SameRoot(validated.value, g, dirs == []);
      return Ok(validated.value);
    }

    /** Receives the closure from far, a store, and validates it. */
    method Receive(g: Digest) returns (dirs: seq<Directory>, r: Result<ValidatedGraph, ServiceError>)
      ensures r.Ok? <==> Servable(far.db, g) || g !in far.db
      ensures r.Ok? ==> Sound(r.value) && (r.value.root.None? <==> g !in far.db)
      ensures r.Ok? && g in far.db ==> At(r.value, r.value.root.value) == g && dirs != []
      ensures r.Ok? && g in far.db ==> Enumerates(dirs, g) && DigestOf(dirs[0]) == g
      ensures RootFirst(dirs) && StreamOf(dirs, r.Err?, g)
    {
      var failed: bool;
      dirs, failed := TraverseDirectory(far.db, g);
      ReachClosed(g);
      assert !failed && g in far.db ==> Lists(dirs, g);
      hide Reach, RootFirst, SizesRight, HoldsClosure, Sound;
      r := Copy(dirs, failed, g);
    }

    /** Receives the closure from a remote service through the client, and validates it. */
    method ReceiveRemote(g: Digest, stream: seq<Directory>, broken: bool)
        returns (dirs: seq<Directory>, r: Result<ValidatedGraph, ServiceError>)
      ensures r.Ok? <==> !broken && Admissible(g, stream) && (stream == [] || (ReceivedAll(g, stream) && SizesRight(g)))
      ensures r.Ok? ==> dirs == stream && Sound(r.value) && (r.value.root.None? <==> dirs == [])
      ensures r.Ok? && dirs != [] ==> At(r.value, r.value.root.value) == g && DigestOf(dirs[0]) == g
    {
      hide Reach, RootFirst, SizesRight, Sound, Admissible, ReceivedAll;
      var got;
      dirs, got := ReceiveClosure(g, stream, broken);
      AdmissibleIsRootFirst(g, dirs);
      ExpectedInClosure(g, dirs);
      r := Copy(dirs, got.Err?, g);
    }

    /** Hands a child-first closure to a new putter of near; none of it is rejected. */
    method PutAll(dirs: seq<Directory>, ghost root: Digest) returns (put: SimplePutter)
      requires dirs != [] ==> LeavesFirst(dirs) && Enumerates(dirs, root) && SizesRight(root)
      ensures fresh(put) && put.store == near && put.Valid() && put.validator != null && fresh(put.validator)
      ensures put.ds == dirs && |put.rs| == |dirs| && AllOk(put.rs)
    {
      hide Run, Indexed, LeavesFirst, Enumerates, SizesRight;
      put := new SimplePutter(near);
      for i := 0 to |dirs|
        invariant put.Valid() && put.store == near && fresh(put) && put.validator != null && fresh(put.validator)
        invariant put.ds == dirs[..i] && |put.rs| == i && AllOk(put.rs)
      {
        var accepted := put.Put(dirs[i]);
        assert put.ds == dirs[..i + 1];
        LeavesFirstPrefixAccepted(put.cs, dirs, put.rs, root, i);
        assert accepted.Ok?;  // a validated closure is accepted again
      }
      assert dirs[..|dirs|] == dirs;
    }

    /** Writes a validated closure to near through its putter. */
    method Insert(v: ValidatedGraph) returns (r: Result<Digest, ServiceError>)
      requires Sound(v) && (v.root.Some? ==> SizesRight(At(v, v.root.value)))
      modifies near
      ensures v.root.None? ==> r.Err? && near.db == old(near.db) && near.history == old(near.history)
      ensures v.root.Some? && near.reliable ==> r.Ok?
      ensures r.Ok? ==> v.root.Some? && near.db == WithClosure(old(near.db), At(v, v.root.value))
      ensures old(near.history) <= near.history
      ensures ReferenceClosed(old(near.db)) ==> AllClosed(near.history[|old(near.history)|..])
    {
      assert Accepted([], []) == {};
      var dirs := DrainLeavesToRoot(v);
      ghost var root := if v.root.Some? then At(v, v.root.value) else Foreign(0);
      hide Run, Reach, LeavesFirst, SizesRight, ReferenceClosed, WithClosure, Sound, Indexed, References, ParentOf,
           Enumerates, Accepted;
      var put := PutAll(dirs, root);
      if v.root.Some? {
        AcceptedClosure(put.ds, put.rs, root);
      }
      r := put.Close();
      if r.Ok? {
        assert v.root.Some?;
        ReachInjective(r.value, root);
      }
    }

    method Get(g: Digest) returns (r: Result<Option<Directory>, ServiceError>)
      modifies near
      ensures old(Lookup(near.db, g)) != Ok(None) ==> r == old(Lookup(near.db, g)) && near.db == old(near.db)
      ensures old(g !in near.db) && !Servable(old(far.db), g) ==>
        r.Err? && near.db == old(near.db) && near.history == old(near.history)
      ensures old(g !in near.db) && Servable(old(far.db), g) && near.reliable ==> r.Ok?
      ensures old(g !in near.db) && r.Ok? ==>
        r.value.Some? && DigestOf(r.value.value) == g && near.db == WithClosure(old(near.db), g)
      ensures old(near.history) <= near.history
      ensures ReferenceClosed(old(near.db)) ==> AllClosed(near.history[|old(near.history)|..])
    {
      hide WithClosure, ReferenceClosed, SizesRight, HoldsClosure, Sound, Enumerates;
      r := near.Get(g);
      if r.Err? || r.value.Some? {
        return;
      }
      var dirs, received := Receive(g);
      if received.Err? {
        return Err(received.error);
      }
      var inserted := Insert(received.value);
      if inserted.Err? {
        return Err(inserted.error);
      }
      return Ok(Some(dirs[0]));
    }

    /** As above, when far is a remote service that answers with `stream`. */
    method GetRemote(g: Digest, stream: seq<Directory>, broken: bool)
        returns (r: Result<Option<Directory>, ServiceError>)
      modifies near
      ensures old(Lookup(near.db, g)) != Ok(None) ==> r == old(Lookup(near.db, g)) && near.db == old(near.db)
      ensures old(g !in near.db) && !RemoteServes(g, stream, broken) ==> r.Err? && near.db == old(near.db)
      ensures old(g !in near.db) && RemoteServes(g, stream, broken) && near.reliable ==> r.Ok?
      ensures old(g !in near.db) && r.Ok? ==> r.value.Some? && DigestOf(r.value.value) == g
      ensures old(g !in near.db) && r.Ok? ==> near.db == WithClosure(old(near.db), g)
      ensures old(near.history) <= near.history
      ensures ReferenceClosed(old(near.db)) ==> AllClosed(near.history[|old(near.history)|..])
    {
      hide WithClosure, ReferenceClosed, SizesRight, Sound, Admissible, ReceivedAll;
      r := near.Get(g);
      if r.Err? || r.value.Some? {
        return;
      }
      var dirs, received := ReceiveRemote(g, stream, broken);
      if received.Err? {
        return Err(received.error);
      }
      var inserted := Insert(received.value);
      if inserted.Err? {
        return Err(inserted.error);
      }
      return Ok(Some(dirs[0]));
    }

    method GetRecursive(g: Digest) returns (out: seq<Directory>, failed: bool)
      modifies near
      ensures g in old(near.db) ==> near.db == old(near.db) && (failed <==> !HoldsClosure(near.db, g))
      ensures g !in old(near.db) && !Servable(old(far.db), g) ==>
        failed && near.db == old(near.db) && near.history == old(near.history)
      ensures g !in old(near.db) && Servable(old(far.db), g) && near.reliable ==> !failed
      ensures g !in old(near.db) && !failed ==> near.db == WithClosure(old(near.db), g)
      ensures !failed ==> Enumerates(out, g) && out != [] && DigestOf(out[0]) == g
      ensures RootFirst(out) && StreamOf(out, failed, g)
      ensures g in old(near.db) && failed ==> StopsShort(near.db, g, out)
      ensures old(near.history) <= near.history
      ensures ReferenceClosed(old(near.db)) ==> AllClosed(near.history[|old(near.history)|..])
    {
      hide WithClosure, ReferenceClosed, SizesRight, HoldsClosure, Sound, RootFirst, Reach, StopsShort;
      ReachClosed(g);
      out, failed := TraverseDirectory(near.db, g);
      assert g in near.db && !failed ==> Lists(out, g);
      if failed || out != [] {
        return;
      }
      var dirs, received := Receive(g);
      if received.Err? {
        return [], true;
      }
      var inserted := Insert(received.value);
      if inserted.Err? {
        return [], true;
      }
      return dirs, false;
    }

    /** As above, when far is itself a cache: its answers are streams like those of any other service. */
    method GetThrough(inner: Cache, g: Digest) returns (r: Result<Option<Directory>, ServiceError>)
      modifies near, inner.near
      ensures old(Lookup(near.db, g)) != Ok(None) ==> r == old(Lookup(near.db, g)) && near.db == old(near.db)
      ensures old(g !in near.db) && !CacheServes(old(inner.near.db), old(inner.far.db), g) ==>
        r.Err? && near.db == old(near.db)
      ensures near.reliable && inner.near.reliable ==>
        old(g !in near.db) && CacheServes(old(inner.near.db), old(inner.far.db), g) ==> r.Ok?
      ensures old(g !in near.db) && r.Ok? ==> r.value.Some? && DigestOf(r.value.value) == g
      ensures old(g !in near.db) && r.Ok? ==> near.db == WithClosure(old(near.db), g)
      ensures old(near.history) <= near.history
      ensures ReferenceClosed(old(near.db)) ==> AllClosed(near.history[|old(near.history)|..])
    {
      hide WithClosure, ReferenceClosed, SizesRight, HoldsClosure, Sound, RootFirst, Reach, StopsShort, Enumerates;
      r := near.Get(g);
      if r.Err? || r.value.Some? {
        return;
      }
      ghost var before := near.db;
      var dirs, failed := inner.GetRecursive(g);
      var copied := Copy(dirs, failed, g);
      if copied.Err? {
        return Err(copied.error);
      }
      assert near.db == before || near.db == WithClosure(before, g);
      if ReferenceClosed(before) && dirs != [] { ClosureKeepsClosed(before, g, dirs); }
      ghost var between := near.history;
      var inserted := Insert(copied.value);
      if ReferenceClosed(before) { AllClosedJoin(old(near.history), between, near.history); }
      if inserted.Err? {
        return Err(inserted.error);
      }
      ClosureAddedOnce(before, g);
      return Ok(Some(dirs[0]));
    }
  }

  /** A cache has the closure with right sizes: near does, or near does not know it and far does. */
  ghost predicate CacheServes(near: Store, far: Store, g: Digest) {
    Servable(near, g) || (g !in near && Servable(far, g))
  }

  lemma {:induction false} ClosureKeepsClosed(db: Store, g: Digest, ds: seq<Directory>)
    requires ReferenceClosed(db) && ReceivedAll(g, ds)
    ensures ReferenceClosed(WithClosure(db, g))
  {
    ReachClosed(g);
    forall x, c | x in WithClosure(db, g) && References(WithClosure(db, g)[x], c) ensures c in WithClosure(db, g) {
      if x in Reach(g) && x.Blake3? {
        assert ParentOf(x, c);
        assert Lists(ds, c);
      }
    }
  }

  lemma {:induction false} AllClosedJoin(a: seq<Store>, b: seq<Store>, c: seq<Store>)
    requires a <= b <= c && AllClosed(b[|a|..]) && AllClosed(c[|b|..])
    ensures AllClosed(c[|a|..])
  {
    hide ReferenceClosed;
    forall i | 0 <= i < |c[|a|..]| ensures ReferenceClosed(c[|a|..][i]) {
      var k := |a| + i;
      if k < |b| {
        assert b[|a|..][i] == c[k];
      } else {
        assert c[|b|..][k - |b|] == c[k];
      }
    }
  }

  lemma {:induction false} ClosureAddedOnce(db: Store, g: Digest)
    ensures WithClosure(WithClosure(db, g), g) == WithClosure(db, g)
  {
  }
}

/** Streams of directory closures: the store-side traversal and the receiving client. */
module ClosureStreams {
  import opened Prelude
  import opened Directories
  import opened GraphStates
  import opened ValidatedGraphs

  datatype ServiceError =
    | AlreadyClosed
    | NoDirectories
    | Rejected(error: GraphError)
    | Corrupted(digest: Digest)
    | Missing(digest: Digest)
    | Unexpected(digest: Digest)
    | Premature
    | Backend

  /** `get` of a directory service: a stored directory is checked against its digest. */
  function Lookup(db: map<Digest, Directory>, g: Digest): Result<Option<Directory>, ServiceError> {
    if g !in db then Ok(None)
    else if DigestOf(db[g]) != g then Err(Corrupted(g))
    else Ok(Some(db[g]))
  }

  ghost predicate Holds(db: map<Digest, Directory>, g: Digest) {
    g in db && DigestOf(db[g]) == g
  }

  /** The whole closure of `root` is in the store, uncorrupted. */
  ghost predicate HoldsClosure(db: map<Digest, Directory>, root: Digest) {
    forall x :: x in Reach(root) ==> Holds(db, x)
  }

  // ---------- Store side ----------

  function Digests(ds: seq<Directory>): seq<Digest> {
    seq(|ds|, i requires 0 <= i < |ds| => DigestOf(ds[i]))
  }

  /** `line` is the digests of what was yielded, followed by the worklist. */
  ghost predicate Traversing(db: map<Digest, Directory>, root: Digest, out: seq<Directory>, line: seq<Digest>) {
    && |out| <= |line| && line[..|out|] == Digests(out)
    && line != [] && line[0] == root && Distinct(line)
    && (forall i :: 0 <= i < |line| ==> line[i] in Reach(root))
    && (forall i :: 0 <= i < |out| ==> Holds(db, line[i]))
    && (forall i, g :: 0 <= i < |out| && References(out[i], g) ==> g in line)
    && (forall j :: 0 < j < |line| ==> Referred(out, j, line[j]))
  }

  /** One of the first `j` directories yielded refers to `g`. */
  ghost predicate Referred(out: seq<Directory>, j: nat, g: Digest) {
    exists i :: 0 <= i < j && i < |out| && References(out[i], g)
  }

  lemma {:induction false} TraversalYields(db: map<Digest, Directory>, root: Digest, out: seq<Directory>,
        line: seq<Digest>)
    requires Traversing(db, root, out, line)
    ensures Distinct(out) && RootFirst(out)
    ensures out != [] ==> DigestOf(out[0]) == root
  {
    assert forall i :: 0 <= i < |out| ==> line[..|out|][i] == line[i] == DigestOf(out[i]);
    forall j | 0 < j < |out| ensures Mentions(out[..j], DigestOf(out[j])) {
      assert Referred(out, j, line[j]);
      var i :| 0 <= i < j && i < |out| && References(out[i], line[j]);
      assert References(out[..j][i], DigestOf(out[j]));
    }
  }

  lemma {:induction false} TraversalStart(db: map<Digest, Directory>, root: Digest)
    ensures Traversing(db, root, [], [root])
  {
    ReachClosed(root);
  }

  lemma {:induction false} TraversalFacts(db: map<Digest, Directory>, root: Digest, out: seq<Directory>,
        line: seq<Digest>)
    requires Traversing(db, root, out, line)
    ensures |out| <= |line| && line[..|out|] == Digests(out) && line != [] && line[0] == root && Distinct(line)
    ensures forall i :: 0 <= i < |line| ==> line[i] in Reach(root)
    ensures forall i :: 0 <= i < |out| ==> DigestOf(out[i]) in Reach(root) && Holds(db, DigestOf(out[i]))
  {
    assert forall i :: 0 <= i < |out| ==> line[..|out|][i] == line[i] == DigestOf(out[i]);
  }

  lemma {:induction false} TraversalClosed(db: map<Digest, Directory>, root: Digest, out: seq<Directory>,
        line: seq<Digest>)
    requires Traversing(db, root, out, line) && |out| == |line|
    ensures Reach(root) <= set x | x in line
  {
    var seen := set x | x in line;
    assert line == Digests(out);
    forall p, c | p in seen && ParentOf(p, c) ensures c in seen {
      var i :| 0 <= i < |line| && line[i] == p;
      assert DigestOf(out[i]) == p && References(out[i], c);
    }
    ReachIsLeast(root, seen);
  }

  lemma {:induction false} TraversalEnds(db: map<Digest, Directory>, root: Digest, out: seq<Directory>,
        line: seq<Digest>)
    requires Traversing(db, root, out, line) && |out| == |line|
    ensures Enumerates(out, root) && HoldsClosure(db, root)
  {
    hide Traversing, Reach, RootFirst;
    TraversalYields(db, root, out, line);
    TraversalFacts(db, root, out, line);
    TraversalClosed(db, root, out, line);
    assert line == Digests(out);
    forall x | x in Reach(root) ensures Lists(out, x) && Holds(db, x) {
      var i :| 0 <= i < |line| && line[i] == x;
      assert DigestOf(out[i]) == x;
    }
  }

  /** `more` is the worklist with all children of `d` added that are neither in it nor sent, each once. */
  ghost predicate Enqueued(d: Directory, worklist: seq<Digest>, sent: set<Digest>, more: seq<Digest>) {
    && worklist <= more && (Distinct(worklist) ==> Distinct(more))
    && (forall i :: |worklist| <= i < |more| ==> References(d, more[i]) && more[i] !in sent)
    && (forall g :: References(d, g) ==> g in more || g in sent)
  }

  method NewChildren(d: Directory, worklist: seq<Digest>, sent: set<Digest>) returns (more: seq<Digest>)
    ensures Enqueued(d, worklist, sent, more)
  {
    more := worklist;
    for k := 0 to |d.nodes|
      invariant worklist <= more && (Distinct(worklist) ==> Distinct(more))
      invariant forall i :: |worklist| <= i < |more| ==> References(d, more[i]) && more[i] !in sent
      invariant forall m :: 0 <= m < k && d.nodes[m].node.DirectoryNode? ==>
        d.nodes[m].node.digest in more || d.nodes[m].node.digest in sent
    {
      var e := d.nodes[k];
      if e.node.DirectoryNode? && e.node.digest !in more && e.node.digest !in sent {
        assert PointsTo(e, e.node.digest) && References(d, e.node.digest);
        more := more + [e.node.digest];
      }
    }
  }

  lemma {:induction false} TraversalStep(db: map<Digest, Directory>, root: Digest, out: seq<Directory>,
        line: seq<Digest>, d: Directory, line': seq<Digest>)
    requires Traversing(db, root, out, line) && |out| < |line| && DigestOf(d) == line[|out|] && Holds(db, DigestOf(d))
    requires line <= line' && Distinct(line')
    requires forall i :: |line| <= i < |line'| ==> References(d, line'[i])
    requires forall g :: References(d, g) ==> g in line'
    ensures Traversing(db, root, out + [d], line')
  {
    var n, out' := |out|, out + [d];
    assert line'[..n + 1] == line[..n] + [DigestOf(d)];
    assert Digests(out') == Digests(out) + [DigestOf(d)];
    ReachClosed(root);
    forall i | 0 <= i < |line'| ensures line'[i] in Reach(root) {
      if i >= |line| {
        assert ParentOf(DigestOf(d), line'[i]);
      }
    }
    forall j | 0 < j < |line'| ensures Referred(out', j, line'[j]) {
      if j < |line| {
        assert Referred(out, j, line[j]);
        var i :| 0 <= i < j && i < |out| && References(out[i], line[j]);
        assert References(out'[i], line'[j]);
      } else {
        assert References(out'[n], line'[j]);
      }
    }
    forall i, g | 0 <= i < |out'| && References(out'[i], g) ensures g in line' {
      if i < n {
        assert g in line;
      }
    }
  }

  /** The loop invariant: what was yielded and the worklist are a traversal, and `sent` is what was yielded. */
  ghost predicate Working(db: map<Digest, Directory>, root: Digest, out: seq<Directory>, worklist: seq<Digest>,
        sent: set<Digest>) {
    Traversing(db, root, out, Digests(out) + worklist) && sent == set x | x in Digests(out)
  }

  lemma {:induction false} WorkStart(db: map<Digest, Directory>, root: Digest)
    ensures Working(db, root, [], [root], {})
  {
    hide Traversing;
    TraversalStart(db, root);
    assert Digests([]) + [root] == [root];
  }

  lemma {:induction false} WorkHead(db: map<Digest, Directory>, root: Digest, out: seq<Directory>,
        worklist: seq<Digest>, sent: set<Digest>)
    requires Working(db, root, out, worklist, sent) && worklist != []
    ensures worklist[0] in Reach(root) && worklist[0] !in sent
    ensures worklist[0] == root <==> out == []
    ensures out != [] ==> Holds(db, root) && Mentions(out, worklist[0])
  {
    hide Traversing, Reach;
    var line := Digests(out) + worklist;
    TraversalFacts(db, root, out, line);
    assert line[|out|] == worklist[0];
    if out != [] {
      assert line[0] == DigestOf(out[0]);
      TraversalMentions(db, root, out, line, |out|);
    }
  }

  lemma {:induction false} TraversalMentions(db: map<Digest, Directory>, root: Digest, out: seq<Directory>,
        line: seq<Digest>, j: nat)
    requires Traversing(db, root, out, line) && 0 < j < |line|
    ensures Mentions(out, line[j])
  {
    assert Referred(out, j, line[j]);
  }

  lemma {:induction false} LineStep(front: seq<Digest>, worklist: seq<Digest>, sent: set<Digest>, d: Directory,
        more: seq<Digest>)
    requires worklist != [] && Distinct(front + worklist) && sent == set x | x in front
    requires Enqueued(d, worklist[1..], sent + {worklist[0]}, more)
    ensures var line, line' := front + worklist, front + [worklist[0]] + more;
      && line <= line' && Distinct(line')
      && (forall i :: |line| <= i < |line'| ==> References(d, line'[i]))
      && (forall g :: References(d, g) ==> g in line')
  {
    hide References;
    var done := front + [worklist[0]];
    var line, line' := front + worklist, done + more;
    assert line == done + worklist[1..] && done == line[..|front| + 1];
    assert forall i :: 0 <= i < |worklist| - 1 ==> worklist[1..][i] == line[|front| + 1 + i];
    forall x | x in done ensures x !in more {
      var i :| 0 <= i < |done| && done[i] == x;
      assert line[i] == x;
    }
    DistinctAppend(done, more);
  }

  lemma {:induction false} WorkStep(db: map<Digest, Directory>, root: Digest, out: seq<Directory>,
        worklist: seq<Digest>, sent: set<Digest>,
      d: Directory, more: seq<Digest>)
    requires Working(db, root, out, worklist, sent) && worklist != [] && DigestOf(d) == worklist[0]
    requires Holds(db, worklist[0])
    requires Enqueued(d, worklist[1..], sent + {worklist[0]}, more)
    ensures Working(db, root, out + [d], more, sent + {worklist[0]})
  {
    hide Traversing, Reach, Enqueued, Distinct, References;
    TraversalFacts(db, root, out, Digests(out) + worklist);
    LineStep(Digests(out), worklist, sent, d, more);
    assert Digests(out + [d]) == Digests(out) + [worklist[0]];
    TraversalStep(db, root, out, Digests(out) + worklist, d, Digests(out + [d]) + more);
  }

  lemma {:induction false} WorkYields(db: map<Digest, Directory>, root: Digest, out: seq<Directory>,
        worklist: seq<Digest>, sent: set<Digest>)
    requires Working(db, root, out, worklist, sent)
    ensures Distinct(out) && RootFirst(out) && (out != [] ==> DigestOf(out[0]) == root)
    ensures forall i :: 0 <= i < |out| ==> DigestOf(out[i]) in Reach(root) && Holds(db, DigestOf(out[i]))
    ensures worklist == [] ==> out != [] && Enumerates(out, root) && HoldsClosure(db, root)
  {
    hide Traversing, Reach, Distinct, RootFirst, Enumerates, HoldsClosure;
    var line := Digests(out) + worklist;
    TraversalYields(db, root, out, line);
    TraversalFacts(db, root, out, line);
    if worklist == [] { TraversalEnds(db, root, out, line); }
  }

  /** What was yielded leads to a directory that the store does not hold. */
  ghost predicate StopsShort(db: map<Digest, Directory>, root: Digest, out: seq<Directory>) {
    exists x :: !Holds(db, x) && if out == [] then x == root else Mentions(out, x)
  }

  /** Breadth-first traversal of a stored closure; `failed` is the error item that may end the stream. */
  method TraverseDirectory(db: map<Digest, Directory>, root: Digest) returns (out: seq<Directory>, failed: bool)
    ensures Distinct(out) && RootFirst(out) && (out != [] ==> DigestOf(out[0]) == root)
    ensures failed <==> root in db && !HoldsClosure(db, root)
    ensures !failed && root !in db ==> out == []
    ensures !failed && root in db ==> Enumerates(out, root)
    ensures forall i :: 0 <= i < |out| ==> DigestOf(out[i]) in Reach(root) && Holds(db, DigestOf(out[i]))
    ensures failed ==> StopsShort(db, root, out)
  {
    hide Working, Reach, Mentions, Distinct, RootFirst, Enumerates, Enqueued;
    out, failed := [], false;
    var worklist, sent: set<Digest> := [root], {};
    WorkStart(db, root);
    while worklist != []
      invariant Working(db, root, out, worklist, sent)
      decreases Reach(root) - sent
    {
      WorkYields(db, root, out, worklist, sent);
      WorkHead(db, root, out, worklist, sent);
      var current := worklist[0];
      var found := Lookup(db, current);
      if found.Err? || found.value.None? {
        failed := found.Err? || current != root;
        assert failed ==> !Holds(db, current);
        return;
      }
      var d := found.value.value;
      var more := NewChildren(d, worklist[1..], sent + {current});
      WorkStep(db, root, out, worklist, sent, d, more);
      out, worklist, sent := out + [d], more, sent + {current};
    }
    WorkYields(db, root, out, worklist, sent);
    assert Holds(db, DigestOf(out[0]));
  }

  // ---------- Receiving side ----------

  /** What the client still expects after receiving `ds`: a child is expected even if it was received before. */
  function ExpectedAfter(root: Digest, ds: seq<Directory>): set<Digest> {
    if ds == [] then {root}
    else
      var n := |ds| - 1;
      ExpectedAfter(root, ds[..n]) - {DigestOf(ds[n])} + ChildDigests(ds[n])
  }

  ghost predicate Admissible(root: Digest, ds: seq<Directory>) {
    forall i :: 0 <= i < |ds| ==> DigestOf(ds[i]) in ExpectedAfter(root, ds[..i])
  }

  lemma {:induction false} AdmissiblePrefix(root: Digest, ds: seq<Directory>)
    requires ds != []
    ensures var n := |ds| - 1;
      Admissible(root, ds) <==> Admissible(root, ds[..n]) && DigestOf(ds[n]) in ExpectedAfter(root, ds[..n])
  {
    var n := |ds| - 1;
    assert forall i :: 0 <= i < n ==> ds[..n][..i] == ds[..i];
  }

  lemma {:induction false} AdmissibleStart(root: Digest)
    ensures Admissible(root, []) && ExpectedAfter(root, []) == {root}
  {
  }

  lemma {:induction false} AdmissibleTake(root: Digest, ds: seq<Directory>, n: nat)
    requires n <= |ds|
    ensures Admissible(root, ds) ==> Admissible(root, ds[..n])
  {
    assert forall i :: 0 <= i < n ==> ds[..n][..i] == ds[..i];
  }

  lemma {:induction false} ListsNothing()
    ensures forall x :: !Lists([], x)
  {
  }

  lemma {:induction false} ChildrenStayBelow(root: Digest, d: Directory)
    requires DigestOf(d) in Reach(root)
    ensures ChildDigests(d) <= Reach(root) && root !in ChildDigests(d)
  {
    ReachClosed(root);
    ReachIsDeeper(root, DigestOf(d));
    forall c | c in ChildDigests(d) ensures c in Reach(root) && c != root {
      ChildIsReferenced(d, c);
      assert ParentOf(DigestOf(d), c);
      ChildIsSmaller(DigestOf(d), c);
    }
  }

  /** All that is received or expected is part of the closure, and no child is forgotten. */
  lemma {:induction false} ExpectedInClosure(root: Digest, ds: seq<Directory>)
    requires Admissible(root, ds)
    ensures ExpectedAfter(root, ds) <= Reach(root)
    ensures forall i :: 0 <= i < |ds| ==> DigestOf(ds[i]) in Reach(root)
    ensures forall g :: g == root || Mentions(ds, g) ==> g in ExpectedAfter(root, ds) || Lists(ds, g)
    ensures root in ExpectedAfter(root, ds) <==> ds == []
  {
    hide Reach, Closed, ChildDigests, Admissible;
    ReachClosed(root);
    if ds != [] {
      var n := |ds| - 1;
      AdmissiblePrefix(root, ds);
      ExpectedInClosure(root, ds[..n]);
      ChildrenStayBelow(root, ds[n]);
      forall g | g == root || Mentions(ds, g) ensures g in ExpectedAfter(root, ds) || Lists(ds, g) {
        ExpectedOrListed(root, ds, g);
      }
    }
  }

  lemma {:induction false} ExpectedOrListed(root: Digest, ds: seq<Directory>, g: Digest)
    requires ds != [] && (g == root || Mentions(ds, g))
    requires var n := |ds| - 1;
      g == root || Mentions(ds[..n], g) ==> g in ExpectedAfter(root, ds[..n]) || Lists(ds[..n], g)
    ensures g in ExpectedAfter(root, ds) || Lists(ds, g)
  {
    var n := |ds| - 1;
    ChildIsReferenced(ds[n], g);
    if g != root && !References(ds[n], g) {
      var i :| 0 <= i < |ds| && References(ds[i], g);
      assert References(ds[..n][i], g);
    }
    if Lists(ds[..n], g) {
      var i :| 0 <= i < n && DigestOf(ds[..n][i]) == g;
      assert DigestOf(ds[i]) == g;
    } else if g == DigestOf(ds[n]) {
      assert Lists(ds, g);
    }
  }

  ghost predicate ReceivedAll(root: Digest, ds: seq<Directory>) {
    forall x :: x in Reach(root) <==> Lists(ds, x)
  }

  /** At the end nothing is outstanding exactly when the whole closure was received. */
  lemma {:induction false} OutstandingMeans(root: Digest, ds: seq<Directory>, received: set<Digest>)
    requires Admissible(root, ds) && ds != [] && forall x :: x in received <==> Lists(ds, x)
    ensures ExpectedAfter(root, ds) <= received <==> ReceivedAll(root, ds)
  {
    ExpectedInClosure(root, ds);
    if ExpectedAfter(root, ds) <= received {
      forall p, c | p in received && ParentOf(p, c) ensures c in received {
        var i :| 0 <= i < |ds| && DigestOf(ds[i]) == p;
        assert Mentions(ds, c);
      }
      ReachIsLeast(root, received);
    }
  }

  lemma {:induction false} NothingLeft(a: set<Digest>, b: set<Digest>)
    ensures a - b == {} <==> a <= b
  {
    if a - b == {} {
      forall x | x in a ensures x in b {
        assert x !in a - b;
      }
    }
  }

  /** The two checks at the end of the stream succeed exactly if nothing or the whole closure was received. */
  lemma {:induction false} EndMeans(root: Digest, ds: seq<Directory>, received: set<Digest>)
    requires Admissible(root, ds) && forall x :: x in received <==> Lists(ds, x)
    ensures var expected := ExpectedAfter(root, ds);
      (|expected| == 1 && root in expected) || expected - received == {} <==> ds == [] || ReceivedAll(root, ds)
  {
    hide Reach, Admissible, Lists, ReceivedAll;
    var expected := ExpectedAfter(root, ds);
    ExpectedInClosure(root, ds);
    if ds != [] {
      OutstandingMeans(root, ds, received);
      NothingLeft(expected, received);
    } else {
      assert expected == {root};
    }
  }

  /** The client loop; `broken` is a transport error at the end of the stream. */
  method ReceiveClosure(root: Digest, stream: seq<Directory>, broken: bool)
      returns (out: seq<Directory>, r: Result<(), ServiceError>)
    ensures out <= stream && Admissible(root, out)
    ensures |out| < |stream| ==> !Admissible(root, stream[..|out| + 1])
    ensures r.Err? ==>
      r.error == if |out| < |stream| then Unexpected(DigestOf(stream[|out|])) else if broken then Backend else Premature
    ensures r.Ok? <==> !broken && Admissible(root, stream) && (stream == [] || ReceivedAll(root, stream))
    ensures r.Ok? ==> out == stream
  {
    hide Reach, ReceivedAll, Admissible, ChildDigests, Lists;
    out := [];
    ListsNothing();
    AdmissibleStart(root);
    var received: set<Digest>, expected := {}, {root};
    for i := 0 to |stream|
      invariant out == stream[..i] && Admissible(root, out) && expected == ExpectedAfter(root, out)
      invariant forall x :: x in received <==> Lists(out, x)
    {
      var d := stream[i];
      var g := DigestOf(d);
      assert stream[..i + 1] == out + [d] && (out + [d])[..i] == out;
      AdmissiblePrefix(root, out + [d]);
      var wasExpected := g in expected;
      expected := expected - {g};
      if !wasExpected {
        AdmissibleTake(root, stream, i + 1);
        return out, Err(Unexpected(g));
      }
      ghost var before := out;
      received := received + {g};
      expected := ExpectChildren(expected, d);
      out := out + [d];
      assert out[..i] == before && out == stream[..i + 1];
      ListsNext(before, d);
    }
    assert out == stream;
    if broken {
      return out, Err(Backend);
    }
    EndMeans(root, stream, received);
    if |expected| == 1 && root in expected {
      return out, Ok(());
    }
    if expected - received != {} {
      return out, Err(Premature);
    }
    return out, Ok(());
  }

  lemma {:induction false} ListsNext(ds: seq<Directory>, d: Directory)
    ensures forall x :: Lists(ds + [d], x) <==> Lists(ds, x) || x == DigestOf(d)
  {
    forall x ensures Lists(ds + [d], x) <==> Lists(ds, x) || x == DigestOf(d) {
      if Lists(ds, x) {
        var i :| 0 <= i < |ds| && DigestOf(ds[i]) == x;
        assert DigestOf((ds + [d])[i]) == x;
      }
      if x == DigestOf(d) {
        assert DigestOf((ds + [d])[|ds|]) == x;
      }
    }
  }

  method ExpectChildren(expected: set<Digest>, d: Directory) returns (more: set<Digest>)
    ensures more == expected + ChildDigests(d)
  {
    more := expected;
    for k := 0 to |d.nodes|
      invariant more == expected + set e | e in d.nodes[..k] && e.node.DirectoryNode? :: e.node.digest
    {
      if d.nodes[k].node.DirectoryNode? {
        more := more + {d.nodes[k].node.digest};
      }
    }
    assert d.nodes[..|d.nodes|] == d.nodes;
  }

  /** Once something was received, everything expected was referred to. */
  lemma {:induction false} ExpectedIsMentioned(root: Digest, ds: seq<Directory>, x: Digest)
    requires Admissible(root, ds) && ds != [] && x in ExpectedAfter(root, ds)
    ensures Mentions(ds, x)
  {
    var n := |ds| - 1;
    AdmissiblePrefix(root, ds);
    ChildIsReferenced(ds[n], x);
    if x !in ChildDigests(ds[n]) {
      assert n > 0;
      ExpectedIsMentioned(root, ds[..n], x);
      var i :| 0 <= i < n && References(ds[..n][i], x);
      assert References(ds[i], x);
    }
  }

  /** Directory `i` refers to `g`, and `g` has not come since. */
  ghost predicate AnnouncedAt(ds: seq<Directory>, i: nat, g: Digest) {
    i < |ds| && References(ds[i], g) && forall k :: i < k < |ds| ==> DigestOf(ds[k]) != g
  }

  /** Expected is the root until it comes, and what was referred to since it came last. */
  lemma {:induction false} ExpectedMeans(root: Digest, ds: seq<Directory>, g: Digest)
    ensures g in ExpectedAfter(root, ds) <==>
      (g == root && !Lists(ds, root)) || exists i: nat :: AnnouncedAt(ds, i, g)
  {
    if ds != [] {
      var n := |ds| - 1;
      ExpectedMeans(root, ds[..n], g);
      ChildIsReferenced(ds[n], g);
      assert ds == ds[..n] + [ds[n]];
      ListsNext(ds[..n], ds[n]);
      hide ChildDigests, References;
      if i: nat :| AnnouncedAt(ds[..n], i, g) {
        assert g != DigestOf(ds[n]) ==> AnnouncedAt(ds, i, g);
      }
      if i: nat :| AnnouncedAt(ds, i, g) {
        assert i < n ==> AnnouncedAt(ds[..n], i, g);
      }
      if References(ds[n], g) {
        assert AnnouncedAt(ds, n, g);
      }
      if g == DigestOf(ds[n]) && !References(ds[n], g) {
        assert forall i: nat :: !AnnouncedAt(ds, i, g);
      }
    }
  }

  /** The client accepts a stream exactly if each directory is the root, come for the first time, or was referred to
      since it came last. */
  lemma {:induction false} AdmissibleMeans(root: Digest, ds: seq<Directory>)
    ensures Admissible(root, ds) <==> forall j :: 0 <= j < |ds| ==>
      var g := DigestOf(ds[j]);
      (g == root && !Lists(ds[..j], root)) || exists i: nat :: AnnouncedAt(ds[..j], i, g)
  {
    hide ExpectedAfter, AnnouncedAt, Lists;
    forall j | 0 <= j < |ds| ensures DigestOf(ds[j]) in ExpectedAfter(root, ds[..j]) <==>
      var g := DigestOf(ds[j]);
      (g == root && !Lists(ds[..j], root)) || exists i: nat :: AnnouncedAt(ds[..j], i, g)
    {
      ExpectedMeans(root, ds[..j], DigestOf(ds[j]));
    }
  }

  /** Whatever the client accepts comes root first, each directory behind one that refers to it. */
  lemma {:induction false} AdmissibleIsRootFirst(root: Digest, ds: seq<Directory>)
    requires Admissible(root, ds)
    ensures RootFirst(ds) && (ds != [] ==> DigestOf(ds[0]) == root)
  {
    if ds != [] {
      assert DigestOf(ds[0]) in ExpectedAfter(root, ds[..0]);
    }
    forall j | 0 < j < |ds| ensures Mentions(ds[..j], DigestOf(ds[j])) {
      assert DigestOf(ds[j]) in ExpectedAfter(root, ds[..j]);
      assert forall i :: 0 <= i < j ==> ds[..j][..i] == ds[..i];
      assert Admissible(root, ds[..j]);
      ExpectedIsMentioned(root, ds[..j], DigestOf(ds[j]));
    }
  }

  /** A directory that was received is accepted again behind one that refers to it; what was received stays the same. */
  lemma {:induction false} RepeatedIsAccepted(root: Digest, ds: seq<Directory>, d: Directory, x: Directory)
    requires Admissible(root, ds + [d]) && References(d, DigestOf(x)) && Lists(ds, DigestOf(x))
    ensures Admissible(root, ds + [d] + [x])
    ensures ReceivedAll(root, ds + [d] + [x]) <==> ReceivedAll(root, ds + [d])
  {
    hide Admissible, Reach;
    var before, after := ds + [d], ds + [d] + [x];
    assert after[..|before|] == before && before[..|ds|] == ds;
    ChildIsReferenced(d, DigestOf(x));
    AdmissiblePrefix(root, after);
    ListsNext(before, x);
    ListsNext(ds, d);
  }

  /** A leaf that the root and a later directory refer to, sent twice: the client accepts that stream. */
  lemma {:induction false} LeafSentTwice(leaf: Directory, middle: Directory, root: Directory)
    requires leaf.nodes == [] && middle.nodes == [Entry([1], DirectoryNode(DigestOf(leaf), 0))]
    requires |root.nodes| == 2 && root.nodes[0] == Entry([1], DirectoryNode(DigestOf(leaf), 0))
    requires root.nodes[1] == Entry([2], DirectoryNode(DigestOf(middle), 2))
    ensures Admissible(DigestOf(root), [root, leaf, middle, leaf])
  {
    var g, ds := DigestOf(root), [root, leaf, middle, leaf];
    assert root.nodes[0] in root.nodes && root.nodes[1] in root.nodes && middle.nodes[0] in middle.nodes;
    assert ChildDigests(root) == {DigestOf(leaf), DigestOf(middle)};
    assert ChildDigests(middle) == {DigestOf(leaf)} && ChildDigests(leaf) == {};
    assert ds[..1][..0] == [] && ds[..2][..1] == ds[..1] && ds[..3][..2] == ds[..2];
    assert ExpectedAfter(g, ds[..1]) == {DigestOf(leaf), DigestOf(middle)};
    assert ExpectedAfter(g, ds[..2]) == {DigestOf(middle)};
    assert ExpectedAfter(g, ds[..3]) == {DigestOf(leaf)};
  }

  lemma {:induction false} StaysExpected(root: Digest, ds: seq<Directory>, i: nat, g: Digest)
    requires i < |ds| && References(ds[i], g) && forall m :: i < m < |ds| ==> DigestOf(ds[m]) != g
    ensures g in ExpectedAfter(root, ds)
  {
    var n := |ds| - 1;
    ChildIsReferenced(ds[n], g);
    if i < n {
      StaysExpected(root, ds[..n], i, g);
    }
  }

  /** Every stream the traversal of a complete store yields is accepted by the client loop. */
  lemma {:induction false} TraversalIsAdmissible(root: Digest, ds: seq<Directory>)
    requires Distinct(ds) && RootFirst(ds) && ds != [] && DigestOf(ds[0]) == root && Enumerates(ds, root)
    ensures Admissible(root, ds) && ReceivedAll(root, ds)
  {
    hide Reach;
    forall j | 0 <= j < |ds| ensures DigestOf(ds[j]) in ExpectedAfter(root, ds[..j]) {
      if j > 0 {
        assert Mentions(ds[..j], DigestOf(ds[j]));
        var i :| 0 <= i < j && References(ds[..j][i], DigestOf(ds[j]));
        StaysExpected(root, ds[..j], i, DigestOf(ds[j]));
      }
    }
  }
}

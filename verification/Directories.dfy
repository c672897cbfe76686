/** Directories, their digests, and the two notions of directory size. */
module Directories {
  import opened Prelude

  /** An ideal hash: a digest either is the digest of one directory, or of no directory at all. */
  datatype Digest = Blake3(preimage: Directory) | Foreign(id: nat)

  datatype Node =
    | DirectoryNode(digest: Digest, size: U64)
    | FileNode(blob: seq<Byte>, size: U64, executable: bool)
    | SymlinkNode(target: seq<Byte>)

  datatype Entry = Entry(name: seq<Byte>, node: Node)

  datatype Directory = Directory(nodes: seq<Entry>)

  function DigestOf(d: Directory): Digest {
    Blake3(d)
  }

  /** Entry `e` points at the directory with digest `g`. */
  predicate PointsTo(e: Entry, g: Digest) {
    e.node.DirectoryNode? && e.node.digest == g
  }

  predicate References(d: Directory, g: Digest) {
    exists e :: e in d.nodes && PointsTo(e, g)
  }

  predicate ParentOf(p: Digest, g: Digest) {
    p.Blake3? && References(p.preimage, g)
  }

  // ---------- Reachability ----------

  /** All digests of the closure of `g`, present in a store or not. */
  function Reach(g: Digest): set<Digest>
    decreases g
  {
    {g} + if g.Blake3? then ReachFrom(g.preimage.nodes) else {}
  }

  function ReachFrom(es: seq<Entry>): set<Digest>
    decreases es
  {
    if es == [] then {}
    else (if es[0].node.DirectoryNode? then Reach(es[0].node.digest) else {}) + ReachFrom(es[1..])
  }

  /** A set that holds every directory its members refer to. */
  ghost predicate Closed(s: set<Digest>) {
    forall p, g :: p in s && ParentOf(p, g) ==> g in s
  }

  lemma {:induction false} ReachFromMembers(es: seq<Entry>, x: Digest)
    ensures x in ReachFrom(es) <==> exists e :: e in es && e.node.DirectoryNode? && x in Reach(e.node.digest)
    decreases es
  {
    if es != [] {
      ReachFromMembers(es[1..], x);
      assert es == [es[0]] + es[1..];
    }
  }

  /** Reachability is the root, or reachability from a child. */
  lemma {:induction false} ReachStep(g: Digest, x: Digest)
    ensures x in Reach(g) <==> x == g || exists c :: ParentOf(g, c) && x in Reach(c)
  {
    if g.Blake3? {
      ReachFromMembers(g.preimage.nodes, x);
      if e :| e in g.preimage.nodes && e.node.DirectoryNode? && x in Reach(e.node.digest) {
        assert PointsTo(e, e.node.digest) && ParentOf(g, e.node.digest);
      }
      forall c | ParentOf(g, c) && x in Reach(c) ensures x in ReachFrom(g.preimage.nodes) {
        var e :| e in g.preimage.nodes && PointsTo(e, c);
      }
    }
  }

  lemma {:induction false} ChildIsSmaller(p: Digest, g: Digest)
    requires ParentOf(p, g)
    ensures Depth(g) < Depth(p)
  {
    var e :| e in p.preimage.nodes && PointsTo(e, g);
    DepthBound(p.preimage.nodes, e);
  }

  /** Longest chain of directories below `g`: the measure that makes the graph acyclic. */
  function Depth(g: Digest): nat
    decreases g
  {
    if g.Blake3? then 1 + DepthOf(g.preimage.nodes) else 0
  }

  function DepthOf(es: seq<Entry>): nat
    decreases es
  {
    if es == [] then 0
    else
      var rest := DepthOf(es[1..]);
      if es[0].node.DirectoryNode? && Depth(es[0].node.digest) > rest then Depth(es[0].node.digest) else rest
  }

  lemma {:induction false} DepthBound(es: seq<Entry>, e: Entry)
    requires e in es && e.node.DirectoryNode?
    ensures Depth(e.node.digest) <= DepthOf(es)
  {
    if es[0] != e {
      DepthBound(es[1..], e);
    }
  }

  lemma {:induction false} ReachIsDeeper(g: Digest, x: Digest)
    requires x in Reach(g)
    ensures x == g || Depth(x) < Depth(g)
    decreases Depth(g)
  {
    ReachStep(g, x);
    if x != g {
      var c :| ParentOf(g, c) && x in Reach(c);
      ChildIsSmaller(g, c);
      ReachIsDeeper(c, x);
    }
  }

  lemma {:induction false} ReachTransitive(a: Digest, b: Digest, c: Digest)
    requires b in Reach(a) && c in Reach(b)
    ensures c in Reach(a)
    decreases Depth(a)
  {
    ReachStep(a, b);
    if b != a {
      var k :| ParentOf(a, k) && b in Reach(k);
      ChildIsSmaller(a, k);
      ReachTransitive(k, b, c);
      ReachStep(a, c);
    }
  }

  /** `Reach(g)` is closed, and it is the least closed set that holds `g`. */
  lemma {:induction false} ReachClosed(g: Digest)
    ensures g in Reach(g) && Closed(Reach(g))
  {
    forall p, c | p in Reach(g) && ParentOf(p, c) ensures c in Reach(g) {
      ReachStep(c, c);
      ReachStep(p, c);
      ReachTransitive(g, p, c);
    }
    ReachStep(g, g);
  }

  lemma {:induction false} ReachInjective(a: Digest, b: Digest)
    requires Reach(a) == Reach(b)
    ensures a == b
  {
    ReachClosed(a);
    ReachClosed(b);
    ReachIsDeeper(a, b);
    ReachIsDeeper(b, a);
  }

  lemma {:induction false} ReachIsLeast(g: Digest, s: set<Digest>)
    requires g in s && Closed(s)
    ensures Reach(g) <= s
    decreases Depth(g)
  {
    forall x | x in Reach(g) ensures x in s {
      ReachStep(g, x);
      if x != g {
        var c :| ParentOf(g, c) && x in Reach(c);
        ChildIsSmaller(g, c);
        ReachIsLeast(c, s);
      }
    }
  }

  /** Everything reachable but the root itself has a parent that is reachable. */
  lemma {:induction false} ReachHasParent(g: Digest, x: Digest) returns (p: Digest)
    requires x in Reach(g) && x != g
    ensures p in Reach(g) && ParentOf(p, x)
    decreases Depth(g)
  {
    ReachStep(g, x);
    var c :| ParentOf(g, c) && x in Reach(c);
    ReachClosed(g);
    if c == x {
      p := g;
    } else {
      ChildIsSmaller(g, c);
      p := ReachHasParent(c, x);
      ReachTransitive(g, c, p);
    }
  }

  ghost predicate HasParentIn(s: set<Digest>, x: Digest) {
    exists p :: p in s && ParentOf(p, x)
  }

  /** The deepest member of what is left over has no parent there. */
  lemma {:induction false} DeepestHasNoParent(s: set<Digest>, t: set<Digest>, x: Digest)
    requires x in s - t && Closed(t) && forall y :: y in s - t ==> Depth(y) <= Depth(x)
    ensures !HasParentIn(s, x)
  {
    forall p | p in s && ParentOf(p, x) ensures false {
      ChildIsSmaller(p, x);
    }
  }

  /** In a finite set where all but `root` have a parent inside, `root` reaches everything. */
  lemma {:induction false} UniqueSourceReaches(s: set<Digest>, root: Digest)
    requires root in s && Closed(s)
    requires forall x :: x in s && x != root ==> HasParentIn(s, x)
    ensures s == Reach(root)
  {
    hide Reach, Depth, HasParentIn;
    ReachIsLeast(root, s);
    ReachClosed(root);
    var lost := s - Reach(root);
    if lost != {} {
      var x := Deepest(lost);
      DeepestHasNoParent(s, Reach(root), x);
    }
    assert s <= Reach(root) by {
      assert forall x :: x in s ==> x !in lost;
    }
  }

  lemma {:induction false} Deepest(s: set<Digest>) returns (x: Digest)
    requires s != {}
    ensures x in s && forall y :: y in s ==> Depth(y) <= Depth(x)
    decreases |s|
  {
    x :| x in s;
    if s != {x} {
      var rest := s - {x};
      assert s == rest + {x};
      var y := Deepest(rest);
      if Depth(y) > Depth(x) { x := y; }
    }
  }

  // ---------- Sizes ----------

  function RecordedSize(e: Entry): nat {
    if e.node.DirectoryNode? then e.node.size else 0
  }

  /** Entries plus recorded sizes: the documented rule, before reduction to a machine word. */
  function DocumentedCount(es: seq<Entry>): nat {
    if es == [] then 0 else 1 + RecordedSize(es[0]) + DocumentedCount(es[1..])
  }

  /** `Directory::size` as written: the number of nodes, plus one per node, plus the recorded sizes. */
  function Size(d: Directory): U64 {
    (|d.nodes| + DocumentedCount(d.nodes)) % TWO64
  }

  /** The rule stated in the documentation, as the Go code computes it; the protobuf code does not wrap. */
  function DocumentedSize(d: Directory): U64 {
    DocumentedCount(d.nodes) % TWO64
  }

  /** Number of nodes below `d` once the whole tree is unfolded. */
  function Descendants(d: Directory): nat
    decreases d
  {
    DescendantsOf(d.nodes)
  }

  function DescendantsOf(es: seq<Entry>): nat
    decreases es
  {
    if es == [] then 0
    else
      1
      + (if es[0].node.DirectoryNode? && es[0].node.digest.Blake3? then Descendants(es[0].node.digest.preimage) else 0)
      + DescendantsOf(es[1..])
  }

  /** The per-edge check of the graph, for every edge leaving `d`. */
  ghost predicate EdgesRight(d: Directory) {
    forall e :: e in d.nodes && e.node.DirectoryNode? ==>
      e.node.digest.Blake3? && e.node.size == Size(e.node.digest.preimage)
  }

  ghost predicate SizesRight(g: Digest) {
    forall x :: x in Reach(g) && x.Blake3? ==> EdgesRight(x.preimage)
  }

  lemma {:induction false} SizesRightBelow(g: Digest, x: Digest)
    requires SizesRight(g) && x in Reach(g)
    ensures SizesRight(x)
  {
    forall y | y in Reach(x) && y.Blake3? ensures EdgesRight(y.preimage) {
      ReachTransitive(g, x, y);
    }
  }

  /** Local per-edge checks have a global meaning: the size is twice the number of descendants. */
  lemma {:induction false} SizeCountsDescendantsTwice(d: Directory)
    requires SizesRight(DigestOf(d))
    ensures Size(d) == (2 * Descendants(d)) % TWO64
    decreases d, 1
  {
    ReachStep(DigestOf(d), DigestOf(d));
    CountTwice(d, d.nodes);
  }

  lemma {:induction false} CountTwice(d: Directory, es: seq<Entry>)
    requires SizesRight(DigestOf(d)) && forall e :: e in es ==> e in d.nodes
    ensures (|es| + DocumentedCount(es)) % TWO64 == (2 * DescendantsOf(es)) % TWO64
    decreases d, 0, |es|
  {
    if es != [] {
      var e := es[0];
      CountTwice(d, es[1..]);
      var rest, twice := |es[1..]| + DocumentedCount(es[1..]), 2 * DescendantsOf(es[1..]);
      var mine := 2 + RecordedSize(e);
      AddModulo(rest, mine);
      AddModulo(twice, mine);
      if e.node.DirectoryNode? {
        ReachStep(DigestOf(d), DigestOf(d));
        assert EdgesRight(d);
        var c := e.node.digest;
        assert PointsTo(e, c) && ParentOf(DigestOf(d), c);
        ReachStep(c, c);
        ReachStep(DigestOf(d), c);
        SizesRightBelow(DigestOf(d), c);
        SizeCountsDescendantsTwice(c.preimage);
        AddModulo(2 * Descendants(c.preimage), 2 + twice);
      }
    }
  }

  lemma {:induction false} AddChanges(a: nat, b: nat)
    ensures (a + b) % TWO64 == b % TWO64 <==> a % TWO64 == 0
  {
  }

  /** Whatever sizes are recorded, the code and the documented rule agree only on directories without entries. */
  lemma {:induction false} SizeIsDocumentedOnlyWhenEmpty(d: Directory)
    ensures Size(d) == DocumentedSize(d) <==> |d.nodes| % TWO64 == 0
  {
    AddChanges(|d.nodes|, DocumentedCount(d.nodes));
  }

  /** So a size that passed every check is the documented count only for an empty directory. */
  lemma {:induction false} SizeIsDescendantsOnlyWhenEmpty(d: Directory)
    requires SizesRight(DigestOf(d))
    ensures Size(d) == Descendants(d) <==> d.nodes == []
  {
    SizeCountsDescendantsTwice(d);
  }
}

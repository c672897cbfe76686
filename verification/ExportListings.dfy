/** What the export of a valid tree means: which headers it holds, in which order, and how many. */
module ExportListings {
  import opened Prelude
  import opened DirectoryMessages
  import opened Exports

  /** The headers among the events. */
  function Headers(es: seq<Event>): seq<Event> {
    if es == [] then [] else (if es[0].Header? then [es[0]] else []) + Headers(es[1..])
  }

  lemma {:induction false} HeadersAppend(a: seq<Event>, b: seq<Event>)
    ensures Headers(a + b) == Headers(a) + Headers(b)
  {
    if a == [] {
      assert a + b == b;
    } else {
      assert (a + b)[1..] == a[1..] + b;
      HeadersAppend(a[1..], b);
    }
  }

  /** Every directory of the tree passes validation. */
  ghost predicate TreeOk(g: Digest) {
    && (g.Hash? ==> IsValidDirectory(g.preimage))
    && (g.Hash? ==> forall i :: 0 <= i < |g.preimage.directories| ==> TreeOk(g.preimage.directories[i].digest))
  }

  ghost predicate NodeOk(n: Node) {
    n.Dir? ==> TreeOk(n.dir.digest)
  }

  /** Children with valid names, in order, and valid below. */
  ghost predicate NodesOk(ns: seq<Node>) {
    Increasing(ns) && forall i :: 0 <= i < |ns| ==> IsValidName(ns[i].Name()) && NodeOk(ns[i])
  }

  lemma {:induction false} ChildOk(g: Digest, c: Node)
    requires g.Hash? && TreeOk(g) && IsIn(c, g.preimage)
    ensures IsValidName(c.Name()) && NodeOk(c)
  {
    var d := g.preimage;
    if i :| 0 <= i < |Dirs(d)| && Dirs(d)[i] == c {
      assert IsValidNode(Dirs(d)[i]) && TreeOk(d.directories[i].digest);
    }
    if i :| 0 <= i < |Files(d)| && Files(d)[i] == c {
      assert IsValidNode(Files(d)[i]);
    }
    if i :| 0 <= i < |Links(d)| && Links(d)[i] == c {
      assert IsValidNode(Links(d)[i]);
    }
  }

  lemma {:induction false} ChildrenOk(g: Digest)
    requires g.Hash? && TreeOk(g)
    ensures NodesOk(Merged(g.preimage))
  {
    MergedIncreases(g.preimage);
    var ns := Merged(g.preimage);
    forall i | 0 <= i < |ns| ensures IsValidName(ns[i].Name()) && NodeOk(ns[i]) {
      MergedMembers(g.preimage, ns[i]);
      ChildOk(g, ns[i]);
    }
  }

  // ---------- Order ----------

  /** Archive order of paths: component by component, a directory before what is in it. */
  predicate PathLess(a: Path, b: Path) {
    b != [] && (a == [] || LexLess(a[0], b[0]) || (a[0] == b[0] && PathLess(a[1..], b[1..])))
  }

  lemma {:induction false} BelowIsLater(p: Path, q: Path)
    requires p < q
    ensures PathLess(p, q)
  {
    if p != [] { BelowIsLater(p[1..], q[1..]); }
  }

  /** Paths that part ways are ordered by the names at which they do. */
  lemma {:induction false} PartingIsLess(p: Path, a: Path, b: Path)
    requires p < a && p < b && LexLess(a[|p|], b[|p|])
    ensures PathLess(a, b)
  {
    if p != [] { PartingIsLess(p[1..], a[1..], b[1..]); }
  }

  lemma {:induction false} PathOrder(a: Path, b: Path)
    requires PathLess(a, b)
    ensures a != b && !PathLess(b, a)
  {
    if a != [] {
      LexTotal(a[0], b[0]);
      if a[0] == b[0] { PathOrder(a[1..], b[1..]); }
    }
  }

  // ---------- The places of a tree ----------

  /** Following the names of `rel` from `n` leads to `m`. */
  ghost predicate LeadsTo(n: Node, rel: Path, m: Node)
    decreases |rel|
  {
    if rel == [] then m == n
    else
      && n.Dir? && n.dir.digest.Hash?
      && exists c :: IsIn(c, n.dir.digest.preimage) && c.Name() == rel[0] && LeadsTo(c, rel[1..], m)
  }

  ghost predicate OneLeadsTo(ns: seq<Node>, rel: Path, m: Node) {
    rel != [] && exists i :: 0 <= i < |ns| && ns[i].Name() == rel[0] && LeadsTo(ns[i], rel[1..], m)
  }

  datatype Place = Place(path: Path, node: Node)

  /** A node that is at `p`, and all nodes below it. */
  ghost function Places(p: Path, n: Node): iset<Place> {
    iset q: Place | p <= q.path && LeadsTo(n, q.path[|p|..], q.node)
  }

  /** The nodes of a directory that is at `p`, and all nodes below them. */
  ghost function AllPlaces(p: Path, ns: seq<Node>): iset<Place> {
    iset q: Place | p < q.path && OneLeadsTo(ns, q.path[|p|..], q.node)
  }

  lemma {:induction false} DirLeadsTo(n: Node, rel: Path, m: Node)
    requires n.Dir? && n.dir.digest.Hash? && rel != []
    ensures LeadsTo(n, rel, m) <==> OneLeadsTo(Merged(n.dir.digest.preimage), rel, m)
  {
    var d := n.dir.digest.preimage;
    if LeadsTo(n, rel, m) {
      var c :| IsIn(c, d) && c.Name() == rel[0] && LeadsTo(c, rel[1..], m);
      MergedMembers(d, c);
    }
    if OneLeadsTo(Merged(d), rel, m) {
      var i :| 0 <= i < |Merged(d)| && Merged(d)[i].Name() == rel[0] && LeadsTo(Merged(d)[i], rel[1..], m);
      MergedMembers(d, Merged(d)[i]);
    }
  }

  lemma {:induction false} OneLeadsToNext(ns: seq<Node>, rel: Path, m: Node)
    requires ns != [] && rel != []
    ensures OneLeadsTo(ns, rel, m) <==>
      (ns[0].Name() == rel[0] && LeadsTo(ns[0], rel[1..], m)) || OneLeadsTo(ns[1..], rel, m)
  {
    hide LeadsTo;
    if OneLeadsTo(ns[1..], rel, m) {
      var i :| 0 <= i < |ns[1..]| && ns[1..][i].Name() == rel[0] && LeadsTo(ns[1..][i], rel[1..], m);
      assert ns[i + 1] == ns[1..][i];
    }
    if OneLeadsTo(ns, rel, m) && !(ns[0].Name() == rel[0] && LeadsTo(ns[0], rel[1..], m)) {
      var i :| 0 <= i < |ns| && ns[i].Name() == rel[0] && LeadsTo(ns[i], rel[1..], m);
      assert ns[1..][i - 1] == ns[i];
    }
  }

  lemma {:induction false} PlacesOfDir(p: Path, n: Node)
    requires n.Dir? && n.dir.digest.Hash?
    ensures Places(p, n) == iset{Place(p, n)} + AllPlaces(p, Merged(n.dir.digest.preimage))
  {
    hide Merged, OneLeadsTo;
    var ns := Merged(n.dir.digest.preimage);
    forall q: Place ensures q in Places(p, n) <==> q in iset{Place(p, n)} + AllPlaces(p, ns) {
      if p < q.path {
        DirLeadsTo(n, q.path[|p|..], q.node);
      } else if p == q.path {
        assert q.path[|p|..] == [];
      }
    }
  }

  lemma {:induction false} PlacesOfLeaf(p: Path, n: Node)
    requires n.Dir? ==> !n.dir.digest.Hash?
    ensures Places(p, n) == iset{Place(p, n)}
  {
    forall q: Place ensures q in Places(p, n) <==> q == Place(p, n) {
      if p <= q.path && q.path[|p|..] == [] {
        assert p == q.path;
      }
    }
  }

  lemma {:induction false} PlacesOfNodes(p: Path, ns: seq<Node>)
    requires ns != []
    ensures AllPlaces(p, ns) == Places(p + [ns[0].Name()], ns[0]) + AllPlaces(p, ns[1..])
  {
    hide LeadsTo, OneLeadsTo;
    var front := p + [ns[0].Name()];
    forall q: Place ensures q in AllPlaces(p, ns) <==> q in Places(front, ns[0]) + AllPlaces(p, ns[1..]) {
      assert front <= q.path ==> p == front[..|p|] == q.path[..|p|];
      if p < q.path {
        var rel := q.path[|p|..];
        OneLeadsToNext(ns, rel, q.node);
        assert front <= q.path <==> rel[0] == ns[0].Name();
        if front <= q.path { assert q.path[|front|..] == rel[1..]; }
      }
    }
  }

  /** All paths of `a` come before those of `b`. */
  ghost predicate Before(a: iset<Place>, b: iset<Place>) {
    forall x, y :: x in a && y in b ==> PathLess(x.path, y.path)
  }

  lemma {:induction false} DirFirst(p: Path, n: Node, ns: seq<Node>)
    ensures Before(iset{Place(p, n)}, AllPlaces(p, ns))
  {
    forall y | y in AllPlaces(p, ns) ensures PathLess(p, y.path) {
      BelowIsLater(p, y.path);
    }
  }

  lemma {:induction false} NodesInOrder(p: Path, ns: seq<Node>)
    requires ns != [] && Increasing(ns)
    ensures Before(Places(p + [ns[0].Name()], ns[0]), AllPlaces(p, ns[1..]))
  {
    hide LeadsTo;
    var front := p + [ns[0].Name()];
    forall x, y | x in Places(front, ns[0]) && y in AllPlaces(p, ns[1..]) ensures PathLess(x.path, y.path) {
      var rel := y.path[|p|..];
      var i :| 0 <= i < |ns[1..]| && ns[1..][i].Name() == rel[0] && LeadsTo(ns[1..][i], rel[1..], y.node);
      assert ns[i + 1] == ns[1..][i] && LexLess(ns[0].Name(), ns[i + 1].Name());
      assert front[..|p|] == p && front[|p|] == ns[0].Name();
      PartingIsLess(p, x.path, y.path);
    }
  }

  // ---------- What a listing is ----------

  /** The header says what the node is; sizes are the same machine word, read with a sign. */
  ghost predicate Describes(k: Kind, n: Node) {
    match k
    case Folder => n.Dir?
    case Regular(size, executable) =>
      && n.File? && (executable <==> n.file.executable)
      && 0 <= size + TWO63 < TWO64 && (size == n.file.size || size + TWO64 == n.file.size)
    case Symlink(target) => n.Link? && target == n.link.target
  }

  /** The lookup that the node needs finds something. */
  ghost predicate Resolves(w: World, n: Node) {
    match n
    case Dir(d) => d.digest.Hash? && w.hasDirectory(d.digest)
    case File(f) => w.blob(f.blob).Some?
    case Link(_) => true
  }

  predicate IsRegular(e: Event) {
    e.Header? && e.kind.Regular?
  }

  /** Nothing that comes before the place fails. */
  ghost predicate Due(w: World, places: iset<Place>, q: Place) {
    q in places && forall x :: x in places && PathLess(x.path, q.path) ==> Resolves(w, x.node)
  }

  ghost predicate HasHeader(w: World, places: iset<Place>, path: Path, k: Kind) {
    exists m :: Due(w, places, Place(path, m)) && Describes(k, m)
  }

  ghost predicate Functional(places: iset<Place>) {
    forall x, y :: x in places && y in places && x.path == y.path ==> x == y
  }

  ghost predicate AllResolve(w: World, places: iset<Place>) {
    forall q :: q in places ==> Resolves(w, q.node)
  }

  ghost predicate Sorted(es: seq<Event>) {
    forall i, j :: 0 <= i < j < |es| && es[i].Header? && es[j].Header? ==> PathLess(es[i].path, es[j].path)
  }

  ghost predicate HeadersRight(w: World, places: iset<Place>, es: seq<Event>) {
    forall path, k :: Header(path, k) in es <==> HasHeader(w, places, path, k)
  }

  /** Contents come behind the header of a regular file, and are what the blob of that file holds. */
  ghost predicate ContentsRight(w: World, places: iset<Place>, es: seq<Event>) {
    && (es != [] ==> es[0].Header?)
    && (forall i :: 0 <= i < |es| - 1 ==> (es[i + 1].Contents? <==> IsRegular(es[i])))
    && (forall i, m :: 0 <= i < |es| - 1 && IsRegular(es[i]) && Place(es[i].path, m) in places ==>
          m.File? && w.blob(m.file.blob) == Some(es[i + 1].bytes))
  }

  /** The last event is the header of a node that does not resolve. */
  ghost predicate EndsAtFailure(w: World, places: iset<Place>, es: seq<Event>) {
    && es != [] && es[|es| - 1].Header?
    && exists m :: Place(es[|es| - 1].path, m) in places && Describes(es[|es| - 1].kind, m) && !Resolves(w, m)
  }

  ghost predicate Listing(w: World, places: iset<Place>, o: Output) {
    && Functional(places) && Sorted(o.events) && HeadersRight(w, places, o.events)
    && ContentsRight(w, places, o.events) && (o.ok <==> AllResolve(w, places))
    && if o.ok then o.events == [] || !IsRegular(o.events[|o.events| - 1]) else EndsAtFailure(w, places, o.events)
  }

  lemma {:induction false} KindDescribes(k: Kind, n: Node)
    ensures Describes(k, n) <==> k == KindOf(n)
  {
  }

  // ---------- Listings one behind the other ----------

  lemma {:induction false} UnionFunctional(a: iset<Place>, b: iset<Place>)
    requires Functional(a) && Functional(b) && Before(a, b)
    ensures Functional(a + b)
  {
    forall x, y | x in a && y in b ensures x.path != y.path {
      PathOrder(x.path, y.path);
    }
  }

  /** A later place is due if all earlier ones resolve. */
  lemma {:induction false} DueInUnion(w: World, a: iset<Place>, b: iset<Place>, q: Place)
    requires Before(a, b)
    ensures Due(w, a + b, q) <==> Due(w, a, q) || (AllResolve(w, a) && Due(w, b, q))
  {
    hide Resolves, PathLess;
    PlacesApart(a, b, q, q);
    if q in a {
      forall y | y in b ensures !PathLess(y.path, q.path) {
        PathOrder(q.path, y.path);
      }
    }
  }

  lemma {:induction false} HeaderInUnion(w: World, a: iset<Place>, b: iset<Place>, path: Path, k: Kind)
    requires Before(a, b)
    ensures HasHeader(w, a + b, path, k) <==>
      HasHeader(w, a, path, k) || (AllResolve(w, a) && HasHeader(w, b, path, k))
  {
    hide Due, Describes, Before, AllResolve;
    forall m ensures var q := Place(path, m);
      Due(w, a + b, q) <==> Due(w, a, q) || (AllResolve(w, a) && Due(w, b, q))
    {
      DueInUnion(w, a, b, Place(path, m));
    }
  }

  /** A header is that of a place. */
  lemma {:induction false} HeaderHasPlace(w: World, places: iset<Place>, es: seq<Event>, i: nat) returns (m: Node)
    requires HeadersRight(w, places, es) && i < |es| && es[i].Header?
    ensures Place(es[i].path, m) in places && Describes(es[i].kind, m)
  {
    hide Describes;
    assert Header(es[i].path, es[i].kind) in es;
    m :| Due(w, places, Place(es[i].path, m)) && Describes(es[i].kind, m);
  }

  lemma {:induction false} SortedUnion(w: World, a: iset<Place>, b: iset<Place>, es: seq<Event>, fs: seq<Event>)
    requires Before(a, b) && HeadersRight(w, a, es) && HeadersRight(w, b, fs) && Sorted(es) && Sorted(fs)
    ensures Sorted(es + fs)
  {
    hide HeadersRight, PathLess;
    forall i: nat, j: nat | i < |es| && j < |fs| && es[i].Header? && fs[j].Header?
      ensures PathLess(es[i].path, fs[j].path)
    {
      var x := HeaderHasPlace(w, a, es, i);
      var y := HeaderHasPlace(w, b, fs, j);
    }
  }

  lemma {:induction false} ContentsUnion(w: World, a: iset<Place>, b: iset<Place>, es: seq<Event>, fs: seq<Event>)
    requires Before(a, b) && HeadersRight(w, a, es) && HeadersRight(w, b, fs)
    requires ContentsRight(w, a, es) && ContentsRight(w, b, fs) && (es == [] || !IsRegular(es[|es| - 1]))
    ensures ContentsRight(w, a + b, es + fs)
  {
    hide HeadersRight, Before;
    var all, n := es + fs, |es|;
    forall i | 0 <= i < |all| - 1 ensures all[i + 1].Contents? <==> IsRegular(all[i]) {
      if i < n - 1 { assert all[i + 1] == es[i + 1] && all[i] == es[i]; }
      else if i >= n { assert all[i + 1] == fs[i - n + 1] && all[i] == fs[i - n]; }
      else { assert all[i + 1] == fs[0] && all[i] == es[n - 1]; }
    }
    forall i, m | 0 <= i < |all| - 1 && IsRegular(all[i]) && Place(all[i].path, m) in a + b
      ensures m.File? && w.blob(m.file.blob) == Some(all[i + 1].bytes)
    {
      if i < n - 1 {
        var x := HeaderHasPlace(w, a, es, i);
        PlacesApart(a, b, Place(es[i].path, x), Place(es[i].path, m));
        assert all[i + 1] == es[i + 1] && all[i] == es[i];
      } else if i >= n {
        var x := HeaderHasPlace(w, b, fs, i - n);
        PlacesApart(a, b, Place(fs[i - n].path, m), Place(fs[i - n].path, x));
        assert all[i + 1] == fs[i - n + 1] && all[i] == fs[i - n];
      }
    }
  }

  lemma {:induction false} ContentsWiden(w: World, a: iset<Place>, b: iset<Place>, es: seq<Event>)
    requires Before(a, b) && HeadersRight(w, a, es) && ContentsRight(w, a, es)
    ensures ContentsRight(w, a + b, es)
  {
    hide HeadersRight, Before;
    forall i, m | 0 <= i < |es| - 1 && IsRegular(es[i]) && Place(es[i].path, m) in a + b
      ensures m.File? && w.blob(m.file.blob) == Some(es[i + 1].bytes)
    {
      var x := HeaderHasPlace(w, a, es, i);
      PlacesApart(a, b, Place(es[i].path, x), Place(es[i].path, m));
    }
  }

  lemma {:induction false} PlacesApart(a: iset<Place>, b: iset<Place>, x: Place, y: Place)
    requires Before(a, b) && x.path == y.path
    ensures !(x in a && y in b)
  {
    if x in a && y in b {
      PathOrder(x.path, y.path);
    }
  }

  /** A listing followed by one of later places is a listing of both; a failed one stays as it is. */
  lemma {:induction false} ListingThen(w: World, a: iset<Place>, b: iset<Place>, x: Output, y: Output)
    requires Listing(w, a, x) && Listing(w, b, y) && Before(a, b)
    ensures Listing(w, a + b, Then(x, y))
  {
    hide Before, Functional, Sorted, ContentsRight, HasHeader;
    UnionFunctional(a, b);
    forall path, k ensures Header(path, k) in Then(x, y).events <==> HasHeader(w, a + b, path, k) {
      HeaderInUnion(w, a, b, path, k);
    }
    if x.ok {
      SortedUnion(w, a, b, x.events, y.events);
      ContentsUnion(w, a, b, x.events, y.events);
      if y.events == [] { assert x.events + [] == x.events; }
    } else {
      ContentsWiden(w, a, b, x.events);
    }
  }

  lemma {:induction false} NothingListed(w: World)
    ensures Listing(w, iset{}, NOTHING)
  {
  }

  lemma {:induction false} OneNodeListed(w: World, p: Path, n: Node)
    ensures Listing(w, iset{Place(p, n)}, OneNode(w, p, n))
  {
    var places, es := iset{Place(p, n)}, OneNode(w, p, n).events;
    KindDescribes(KindOf(n), n);
    forall path, k ensures Header(path, k) in es <==> HasHeader(w, places, path, k) {
      KindDescribes(k, n);
      PathSelf(p);
      assert Due(w, places, Place(p, n));
    }
  }

  lemma {:induction false} PathSelf(p: Path)
    ensures !PathLess(p, p)
  {
    if PathLess(p, p) { PathOrder(p, p); }
  }

  /** The recursive listing of a node writes what a listing of its places is, up to the first failing lookup. */
  lemma {:induction false} NodeListed(w: World, p: Path, n: Node)
    requires NodeOk(n)
    ensures Listing(w, Places(p, n), ListNode(w, p, n))
    decreases NodeDepth(n), 0
  {
    hide Listing, Merged, IsValidDirectory, Places, AllPlaces, Join;
    OneNodeListed(w, p, n);
    if n.Dir? && n.dir.digest.Hash? {
      var ns := Merged(n.dir.digest.preimage);
      ChildrenAreShallower(n.dir.digest);
      ChildrenOk(n.dir.digest);
      NodesListed(w, p, ns);
      DirFirst(p, n, ns);
      PlacesOfDir(p, n);
      ListingThen(w, iset{Place(p, n)}, AllPlaces(p, ns), OneNode(w, p, n), ListNodes(w, p, ns));
    } else {
      PlacesOfLeaf(p, n);
    }
  }

  lemma {:induction false} NodesListed(w: World, p: Path, ns: seq<Node>)
    requires NodesOk(ns)
    ensures Listing(w, AllPlaces(p, ns), ListNodes(w, p, ns))
    decreases NodesDepth(ns), |ns|
  {
    hide Listing, Merged, IsValidDirectory, ListNode, Places, Before, IsValidName, NodeOk;
    if ns == [] {
      NothingListed(w);
      assert AllPlaces(p, ns) == iset{};
    } else {
      var front := p + [ns[0].Name()];
      JoinValid(p, ns[0].Name());
      NodeListed(w, front, ns[0]);
      NodesListed(w, p, ns[1..]);
      NodesInOrder(p, ns);
      PlacesOfNodes(p, ns);
      ListingThen(w, Places(front, ns[0]), AllPlaces(p, ns[1..]), ListNode(w, front, ns[0]), ListNodes(w, p, ns[1..]));
    }
  }

  // ---------- Size ----------

  function SumSizes(ds: seq<DirectoryNode>): nat {
    if ds == [] then 0 else SumSizes(ds[..|ds| - 1]) + 1 + ds[|ds| - 1].size
  }

  /** Entries plus recorded sizes, reduced to a machine word. */
  function SizeOf(d: Directory): U64 {
    (|d.files| + |d.symlinks| + SumSizes(d.directories)) % TWO64
  }

  lemma {:induction false} AddBoth(a: nat, b: nat)
    ensures (a % TWO64 + b % TWO64) % TWO64 == (a + b) % TWO64
  {
    AddModulo(a, b % TWO64);
    AddModulo(b, a);
  }

  lemma {:induction false} AddSame(a: nat, b: nat, c: nat)
    requires a % TWO64 == b % TWO64
    ensures (a + c) % TWO64 == (b + c) % TWO64
  {
    AddModulo(a, c);
    AddModulo(b, c);
  }

  method Size(d: Directory) returns (size: U64)
    ensures size == SizeOf(d)
  {
    size := (|d.files| + |d.symlinks|) % TWO64;
    for i := 0 to |d.directories|
      invariant size == (|d.files| + |d.symlinks| + SumSizes(d.directories[..i])) % TWO64
    {
      assert d.directories[..i + 1][..i] == d.directories[..i];
      AddBoth(|d.files| + |d.symlinks| + SumSizes(d.directories[..i]), 1 + d.directories[i].size);
      size := (size + (1 + d.directories[i].size) % TWO64) % TWO64;
    }
    assert d.directories[..|d.directories|] == d.directories;
  }

  /** Every recorded size in the tree is the size of the directory it is recorded for. */
  ghost predicate SizesRight(g: Digest) {
    g.Hash? && forall i :: 0 <= i < |g.preimage.directories| ==> RecordedRight(g.preimage.directories[i])
  }

  ghost predicate RecordedRight(d: DirectoryNode) {
    d.digest.Hash? && d.size == SizeOf(d.digest.preimage) && SizesRight(d.digest)
  }

  /** Number of nodes in the unfolded tree, `n` included. */
  ghost function TreeCount(n: Node): nat
    ensures TreeCount(n) > 0
    decreases NodeDepth(n), 0
  {
    if n.Dir? && n.dir.digest.Hash? then
      ChildrenAreShallower(n.dir.digest);
      1 + TreeCounts(Merged(n.dir.digest.preimage))
    else 1
  }

  ghost function TreeCounts(ns: seq<Node>): nat
    decreases NodesDepth(ns), |ns|
  {
    if ns == [] then 0 else TreeCount(ns[0]) + TreeCounts(ns[1..])
  }

  lemma {:induction false} HeadersOfOne(h: Event, es: seq<Event>)
    requires h.Header?
    ensures Headers([h] + es) == [h] + Headers(es)
  {
    assert ([h] + es)[1..] == es;
  }

  lemma {:induction false} HeadersCount(w: World, p: Path, n: Node)
    requires ListNode(w, p, n).ok
    ensures |Headers(ListNode(w, p, n).events)| == TreeCount(n)
    decreases NodeDepth(n), 0
  {
    hide Merged, Join;
    var h := Header(p, KindOf(n));
    HeadersOfOne(h, []);
    assert [h] + [] == [h];
    match n
    case Link(_) =>
    case File(f) =>
      var c := Contents(w.blob(f.blob).value);
      HeadersOfOne(h, [c]);
      assert [h] + [c] == [h, c];
    case Dir(d) =>
      var ns := Merged(d.digest.preimage);
      ChildrenAreShallower(d.digest);
      HeadersCounts(w, p, ns);
      HeadersOfOne(h, ListNodes(w, p, ns).events);
  }

  lemma {:induction false} HeadersCounts(w: World, p: Path, ns: seq<Node>)
    requires ListNodes(w, p, ns).ok
    ensures |Headers(ListNodes(w, p, ns).events)| == TreeCounts(ns)
    decreases NodesDepth(ns), |ns|
  {
    hide Merged, Join, ListNode, TreeCount;
    if ns != [] {
      var q := Join(p, ns[0].Name());
      HeadersCount(w, q, ns[0]);
      HeadersCounts(w, p, ns[1..]);
      HeadersAppend(ListNode(w, q, ns[0]).events, ListNodes(w, p, ns[1..]).events);
    }
  }

  ghost function DirCounts(ds: seq<DirectoryNode>): nat {
    if ds == [] then 0 else TreeCount(Dir(ds[0])) + DirCounts(ds[1..])
  }

  /** The merge neither loses nor repeats a node. */
  lemma {:induction false} MergedCounts(d: Directory)
    ensures TreeCounts(Merged(d)) == |d.files| + |d.symlinks| + DirCounts(d.directories)
    decreases Entries(d)
  {
    SmallestIsHead(d);
    if SmallestNode(d).Some? {
      var n := SmallestNode(d).value;
      MergedCounts(Drained(d, n));
      assert Merged(d)[1..] == Merged(Drained(d, n));
    }
  }

  lemma {:induction false} DirCountsNext(ds: seq<DirectoryNode>, d: DirectoryNode)
    ensures DirCounts(ds + [d]) == DirCounts(ds) + TreeCount(Dir(d))
  {
    hide TreeCount;
    if ds == [] {
      assert ds + [d] == [d] && [d][1..] == [];
      assert DirCounts([]) == 0;
    } else {
      assert (ds + [d])[1..] == ds[1..] + [d];
      DirCountsNext(ds[1..], d);
    }
  }

  /** The size of a directory is the number of nodes below it, when the recorded sizes are right. */
  lemma {:induction false} SizeCountsNodes(n: Node)
    requires n.Dir? && SizesRight(n.dir.digest)
    ensures SizeOf(n.dir.digest.preimage) == (TreeCount(n) - 1) % TWO64
    decreases Depth(n.dir.digest), 0
  {
    var d := n.dir.digest.preimage;
    MergedCounts(d);
    SumCountsNodes(d.directories, n.dir.digest, |d.directories|);
    assert d.directories[..|d.directories|] == d.directories;
    AddSame(SumSizes(d.directories), DirCounts(d.directories), |d.files| + |d.symlinks|);
  }

  predicate SameWord(a: nat, b: nat) {
    a % TWO64 == b % TWO64
  }

  lemma {:induction false} CountOneMore(sum: nat, counts: nat, size: nat, count: nat)
    requires SameWord(sum, counts) && count > 0 && size == (count - 1) % TWO64
    ensures SameWord(sum + 1 + size, counts + count)
  {
    AddModulo(count - 1, sum + 1);
    AddSame(sum, counts, count);
  }

  lemma {:induction false} SumsNext(ds: seq<DirectoryNode>, k: nat)
    requires 0 < k <= |ds|
    ensures SumSizes(ds[..k]) == SumSizes(ds[..k - 1]) + 1 + ds[k - 1].size
    ensures DirCounts(ds[..k]) == DirCounts(ds[..k - 1]) + TreeCount(Dir(ds[k - 1]))
  {
    hide TreeCount;
    assert ds[..k] == ds[..k - 1] + [ds[k - 1]] && ds[..k][..k - 1] == ds[..k - 1];
    DirCountsNext(ds[..k - 1], ds[k - 1]);
  }

  lemma {:induction false} SumsOfNothing()
    ensures SameWord(SumSizes([]), DirCounts([]))
  {
  }

  lemma {:induction false} SumCountsNodes(ds: seq<DirectoryNode>, g: Digest, k: nat)
    requires g.Hash? && ds == g.preimage.directories && SizesRight(g) && k <= |ds|
    ensures SameWord(SumSizes(ds[..k]), DirCounts(ds[..k]))
    decreases Depth(g), 0, k
  {
    hide TreeCount, DirCounts, SizeOf, SameWord, SumSizes;
    if k == 0 {
      assert ds[..0] == [];
      SumsOfNothing();
    } else {
      var d := ds[k - 1];
      assert RecordedRight(d);
      SumCountsNodes(ds, g, k - 1);
      DepthBound(ds, k - 1);
      SizeCountsNodes(Dir(d));
      SumsNext(ds, k);
      CountOneMore(SumSizes(ds[..k - 1]), DirCounts(ds[..k - 1]), d.size, TreeCount(Dir(d)));
    }
  }

  // ---------- The export as a whole ----------

  lemma {:induction false} RootPlaces(root: Node, q: Place)
    ensures q in Places([], root) <==> LeadsTo(root, q.path, q.node)
  {
    assert q.path[0..] == q.path && [] <= q.path;
  }

  /** A path leads to one node at most. */
  lemma {:induction false} PathsAreUnique(root: Node, path: Path, m1: Node, m2: Node)
    requires NodeOk(root) && LeadsTo(root, path, m1) && LeadsTo(root, path, m2)
    ensures m1 == m2
  {
    hide LeadsTo, Places;
    var w := World(_ => true, _ => None);
    NodeListed(w, [], root);
    RootPlaces(root, Place(path, m1));
    RootPlaces(root, Place(path, m2));
  }

  /** An export is complete exactly if every lookup in the tree finds something. */
  lemma {:induction false} ExportIsComplete(w: World, root: Node)
    requires NodeOk(root)
    ensures Exported(w, root).ok <==> forall path, m :: LeadsTo(root, path, m) ==> Resolves(w, m)
  {
    hide Places, ListNode;
    NodeListed(w, [], root);
    if Exported(w, root).ok {
      forall path, m | LeadsTo(root, path, m) ensures Resolves(w, m) {
        RootPlaces(root, Place(path, m));
        assert Place(path, m) in Places([], root);
      }
    } else if !root.Dir? || Resolves(w, root) {
      var q :| q in Places([], root) && !Resolves(w, q.node);
      RootPlaces(root, q);
      assert LeadsTo(root, q.path, q.node);
    } else {
      assert LeadsTo(root, [], root);
    }
  }

  lemma {:induction false} RootIsPlace(root: Node)
    ensures LeadsTo(root, [], root)
  {
  }

  /** A complete export of a valid tree lists every path of the tree once, in archive order, and says what the node
      there is. */
  lemma {:induction false} ExportListsTree(w: World, root: Node)
    requires NodeOk(root) && Exported(w, root).ok
    ensures Sorted(Exported(w, root).events)
    ensures forall path, kind :: Header(path, kind) in Exported(w, root).events <==>
      exists m :: LeadsTo(root, path, m) && Describes(kind, m)
  {
    hide LeadsTo, Places, ListNode, Describes, Sorted;
    NodeListed(w, [], root);
    forall path, kind ensures Header(path, kind) in Exported(w, root).events <==>
      exists m :: LeadsTo(root, path, m) && Describes(kind, m)
    {
      forall m ensures Due(w, Places([], root), Place(path, m)) <==> LeadsTo(root, path, m) {
        RootPlaces(root, Place(path, m));
      }
    }
  }

  /** Contents come behind the header of a regular file, and nowhere else. */
  ghost predicate ContentsInPlace(es: seq<Event>) {
    && es != [] && es[0].Header?
    && forall i :: 0 <= i < |es| ==> (IsRegular(es[i]) <==> i + 1 < |es| && es[i + 1].Contents?)
  }

  /** They are what the blob lookup returns for the file that the path leads to. */
  lemma {:induction false} ExportWritesContents(w: World, root: Node)
    requires NodeOk(root) && Exported(w, root).ok
    ensures ContentsInPlace(Exported(w, root).events)
    ensures var es := Exported(w, root).events;
      forall path, m, i: nat :: LeadsTo(root, path, m) && m.File? && HeaderAt(es, i, path) ==>
        ContentsAt(es, i + 1) == w.blob(m.file.blob)
  {
    hide LeadsTo, Places, ListNode, Sorted, Functional, AllResolve, HasHeader;
    NodeListed(w, [], root);
    var es := Exported(w, root).events;
    RootHasHeader(w, root, es);
    forall path, m, i: nat | LeadsTo(root, path, m) && m.File? && HeaderAt(es, i, path)
      ensures ContentsAt(es, i + 1) == w.blob(m.file.blob)
    {
      RootPlaces(root, Place(path, m));
      var x := HeaderHasPlace(w, Places([], root), es, i);
      assert x == m by { RootPlaces(root, Place(path, x)); PathsAreUnique(root, path, x, m); }
    }
  }

  ghost predicate HeaderAt(es: seq<Event>, i: nat, path: Path) {
    i < |es| && es[i].Header? && es[i].path == path
  }

  function ContentsAt(es: seq<Event>, i: nat): Option<seq<Byte>> {
    if i < |es| && es[i].Contents? then Some(es[i].bytes) else None
  }

  lemma {:induction false} RootHasHeader(w: World, root: Node, es: seq<Event>)
    requires HeadersRight(w, Places([], root), es)
    ensures es != []
  {
    hide LeadsTo, Places, Describes;
    RootPlaces(root, Place([], root));
    RootIsPlace(root);
    assert Due(w, Places([], root), Place([], root));
    KindDescribes(KindOf(root), root);
    assert HasHeader(w, Places([], root), [], KindOf(root));
    assert Header([], KindOf(root)) in es;
  }

  /** An incomplete export ends with the header of the node whose lookup failed, behind all that come before it; if
      that node is the root directory, nothing is written. */
  lemma {:induction false} ExportStopsAtFailure(w: World, root: Node)
    requires NodeOk(root) && !Exported(w, root).ok
    ensures var es := Exported(w, root).events;
      if root.Dir? && !Resolves(w, root) then es == []
      else
        && es != [] && es[|es| - 1].Header?
        && (exists m :: LeadsTo(root, es[|es| - 1].path, m) && Describes(es[|es| - 1].kind, m) && !Resolves(w, m))
        && (forall path, m :: LeadsTo(root, path, m) && PathLess(path, es[|es| - 1].path) ==> Resolves(w, m))
        && forall path, kind :: Header(path, kind) in es <==>
             exists m :: Due(w, Places([], root), Place(path, m)) && Describes(kind, m)
  {
    hide LeadsTo, Places, ListNode, Describes, Sorted, ContentsRight, PathLess;
    NodeListed(w, [], root);
    if !(root.Dir? && !Resolves(w, root)) {
      var es, places := Exported(w, root).events, Places([], root);
      var last := es[|es| - 1];
      forall path, m ensures Place(path, m) in places <==> LeadsTo(root, path, m) {
        RootPlaces(root, Place(path, m));
      }
      var m :| Place(last.path, m) in places && Describes(last.kind, m) && !Resolves(w, m);
      assert Header(last.path, last.kind) in es;
      var x :| Due(w, places, Place(last.path, x)) && Describes(last.kind, x);
    }
  }

  /** One header for the root, and as many more as the size of the root directory says. */
  lemma {:induction false} ExportMatchesSize(w: World, root: Node)
    requires root.Dir? && SizesRight(root.dir.digest) && Exported(w, root).ok
    ensures SizeOf(root.dir.digest.preimage) == (|Headers(Exported(w, root).events)| - 1) % TWO64
  {
    hide SizeOf, TreeCount, SizesRight, Headers, ListNode;
    HeadersCount(w, [], root);
    SizeCountsNodes(root);
  }
}

/** What a successful validation means, and the two ways to drain a validated graph. */
module ValidatedGraphs {
  import opened Prelude
  import opened Directories
  import opened GraphStates
  import Traversal

  datatype ValidatedGraph = ValidatedGraph(nodes: seq<Option<Directory>>, edges: seq<Edge>, root: Option<nat>)

  /** The directories with these digests are nothing, or exactly the closure of one of them. */
  ghost predicate IsClosure(s: set<Digest>) {
    s == {} || exists r :: r in s && s == Reach(r)
  }

  ghost predicate HasEdge(edges: seq<Edge>, i: nat, j: nat) {
    exists q :: 0 <= q < |edges| && edges[q].src == i && edges[q].dst == j
  }

  ghost predicate OneSource(nodes: seq<Option<Directory>>, edges: seq<Edge>) {
    forall i, j :: 0 <= i < |nodes| && 0 <= j < |nodes| && !HasIncoming(edges, i) && !HasIncoming(edges, j) ==> i == j
  }

  ghost predicate Complete(nodes: seq<Option<Directory>>) {
    forall i :: 0 <= i < |nodes| ==> nodes[i].Some?
  }

  /** `root` is the node without incoming edges, if there is one. */
  ghost predicate IsRoot(nodes: seq<Option<Directory>>, edges: seq<Edge>, root: Option<nat>) {
    if root.Some? then root.value < |nodes| && !HasIncoming(edges, root.value)
    else forall i :: 0 <= i < |nodes| ==> HasIncoming(edges, i)
  }

  // ---------- Validation of a clean graph ----------

  /** In a clean graph the edges are exactly the references. */
  lemma {:induction false} EdgesAreReferences(g: State, i: nat, j: nat)
    requires Clean(g) && i < |g.nodes| && j < |g.nodes|
    ensures HasEdge(g.edges, i, j) <==> g.nodes[i].Some? && References(g.nodes[i].value, g.keys[j])
  {
    if HasEdge(g.edges, i, j) {
      var q :| 0 <= q < |g.edges| && g.edges[q].src == i && g.edges[q].dst == j;
      assert EdgeSound(g, Owned(g), g.edges[q]);
    }
    if g.nodes[i].Some? && References(g.nodes[i].value, g.keys[j]) {
      var e :| e in g.nodes[i].value.nodes && PointsTo(e, g.keys[j]);
      assert e in Owned(g)[i] && EntryWired(g, i, e);
    }
  }

  lemma {:induction false} ReferencesAreKnown(g: State, p: Digest, c: Digest)
    requires Clean(g) && IsFilled(g, p) && ParentOf(p, c)
    ensures c in g.ixOf
  {
    OwnedBy(g, p);
    var e :| e in p.preimage.nodes && PointsTo(e, c);
    assert EntryWired(g, g.ixOf[p], e);
  }

  /** A node has an incoming edge exactly when a directory in the graph refers to it. */
  lemma {:induction false} IncomingIsReferenced(g: State, j: nat)
    requires Clean(g) && j < |g.nodes|
    ensures HasIncoming(g.edges, j) <==> HasParentIn(Filled(g), g.keys[j])
  {
    if HasIncoming(g.edges, j) {
      var q :| 0 <= q < |g.edges| && g.edges[q].dst == j;
      EdgesAreReferences(g, g.edges[q].src, j);
      assert HasEdge(g.edges, g.edges[q].src, j);
      var p := g.keys[g.edges[q].src];
      FilledMember(g, p);
      assert p in Filled(g) && ParentOf(p, g.keys[j]);
    }
    if p :| p in Filled(g) && ParentOf(p, g.keys[j]) {
      FilledMember(g, p);
      EdgesAreReferences(g, g.ixOf[p], j);
    }
  }

  lemma {:induction false} CompleteIsClosed(g: State)
    requires Clean(g)
    ensures Complete(g.nodes) <==> g.ixOf.Keys == Filled(g)
    ensures Complete(g.nodes) ==> Closed(Filled(g))
    ensures Closed(Filled(g)) ==> Complete(g.nodes)
  {
    assert Indexed(g);
    hide Clean;
    forall k | k in g.ixOf ensures k in Filled(g) <==> g.nodes[g.ixOf[k]].Some? {
    }
    if Complete(g.nodes) {
      forall p, c | p in Filled(g) && ParentOf(p, c) ensures c in Filled(g) {
        ReferencesAreKnown(g, p, c);
      }
    }
    if g.ixOf.Keys == Filled(g) {
      forall i | 0 <= i < |g.nodes| ensures g.nodes[i].Some? {
        assert g.keys[i] in g.ixOf.Keys;
      }
    }
    if Closed(Filled(g)) {
      forall i | 0 <= i < |g.nodes| ensures g.nodes[i].Some? {
        if g.nodes[i].None? {
          UnfilledIsReferenced(g, i);
        }
      }
    }
  }

  lemma {:induction false} UnfilledIsReferenced(g: State, i: nat)
    requires Clean(g) && i < |g.nodes| && g.nodes[i].None?
    ensures !Closed(Filled(g))
  {
    IncomingIsReferenced(g, i);
    var p :| p in Filled(g) && ParentOf(p, g.keys[i]);
    assert g.keys[i] !in Filled(g);
  }

  /** A complete graph with one source is the closure of that source. */
  lemma {:induction false} SourceReachesAll(g: State, root: Option<nat>)
    requires Clean(g) && Complete(g.nodes) && OneSource(g.nodes, g.edges) && IsRoot(g.nodes, g.edges, root)
    ensures root.None? <==> g.nodes == []
    ensures root.None? ==> Filled(g) == {}
    ensures root.Some? ==> g.keys[root.value] in Filled(g) && Filled(g) == Reach(g.keys[root.value])
  {
    assert Indexed(g);
    hide Clean, Reach;
    CompleteIsClosed(g);
    if g.nodes != [] {
      assert g.keys[0] in g.ixOf;
      var top := Deepest(Filled(g));
      var i := g.ixOf[top];
      IncomingIsReferenced(g, i);
      forall p | p in Filled(g) && ParentOf(p, top) ensures false {
        ChildIsSmaller(p, top);
      }
      assert !HasIncoming(g.edges, i);
      var r := g.keys[root.value];
      forall x | x in Filled(g) && x != r ensures HasParentIn(Filled(g), x) {
        IncomingIsReferenced(g, g.ixOf[x]);
      }
      UniqueSourceReaches(Filled(g), r);
    }
  }

  lemma {:induction false} ClosureIsComplete(g: State, r: Digest)
    requires Clean(g) && r in Filled(g) && Filled(g) == Reach(r)
    ensures Complete(g.nodes) && OneSource(g.nodes, g.edges)
  {
    assert Indexed(g);
    hide Clean, Reach;
    ReachClosed(r);
    CompleteIsClosed(g);
    forall i | 0 <= i < |g.nodes| && g.keys[i] != r ensures HasIncoming(g.edges, i) {
      assert g.keys[i] in g.ixOf;
      var p := ReachHasParent(r, g.keys[i]);
      IncomingIsReferenced(g, i);
    }
  }

  /** Validation of a clean graph succeeds exactly when its directories form a closure. */
  lemma {:induction false} ValidationMeans(g: State)
    requires Clean(g)
    ensures Complete(g.nodes) && OneSource(g.nodes, g.edges) <==> IsClosure(Filled(g))
  {
    assert Indexed(g);
    hide Clean, Reach;
    if Complete(g.nodes) && OneSource(g.nodes, g.edges) {
      if i :| 0 <= i < |g.nodes| && !HasIncoming(g.edges, i) {
        SourceReachesAll(g, Some(i));
      } else {
        SourceReachesAll(g, None);
      }
    }
    if IsClosure(Filled(g)) {
      if Filled(g) == {} {
        CompleteIsClosed(g);
        assert g.ixOf == map[];
        SameLookup(g, State([], [], map[], []));
      } else {
        var r :| r in Filled(g) && Filled(g) == Reach(r);
        ClosureIsComplete(g, r);
      }
    }
  }

  // ---------- Draining ----------

  function At(v: ValidatedGraph, i: nat): Digest
    requires i < |v.nodes| && v.nodes[i].Some?
  {
    DigestOf(v.nodes[i].value)
  }

  ghost predicate HoldsExactly(v: ValidatedGraph, s: set<Digest>)
    requires Complete(v.nodes)
  {
    forall x :: x in s <==> exists i :: 0 <= i < |v.nodes| && At(v, i) == x
  }

  /** What validation hands over: all nodes filled, edges equal to references, one root reaching all. */
  ghost predicate Sound(v: ValidatedGraph) {
    && Complete(v.nodes) && Distinct(v.nodes)
    && (forall q :: 0 <= q < |v.edges| ==> v.edges[q].src < |v.nodes| && v.edges[q].dst < |v.nodes|)
    && (forall i, j :: 0 <= i < |v.nodes| && 0 <= j < |v.nodes| ==>
          (HasEdge(v.edges, i, j) <==> ParentOf(At(v, i), At(v, j))))
    && (v.root.None? <==> v.nodes == [])
    && (v.root.Some? ==> v.root.value < |v.nodes| && HoldsExactly(v, Reach(At(v, v.root.value))))
  }

  lemma {:induction false} ValidatedIsSound(g: State, root: Option<nat>)
    requires Clean(g) && Complete(g.nodes) && OneSource(g.nodes, g.edges) && IsRoot(g.nodes, g.edges, root)
    ensures Sound(ValidatedGraph(g.nodes, g.edges, root))
  {
    assert Indexed(g);
    hide Clean, Reach;
    var v := ValidatedGraph(g.nodes, g.edges, root);
    assert forall i :: 0 <= i < |g.nodes| ==> At(v, i) == g.keys[i];
    SourceReachesAll(g, root);
    forall i, j | 0 <= i < |v.nodes| && 0 <= j < |v.nodes|
      ensures HasEdge(v.edges, i, j) <==> ParentOf(At(v, i), At(v, j))
    {
      EdgesAreReferences(g, i, j);
    }
    if root.Some? {
      forall x ensures x in Reach(At(v, root.value)) <==> exists i :: 0 <= i < |v.nodes| && At(v, i) == x {
        FilledMember(g, x);
        if x in Filled(g) {
          assert At(v, g.ixOf[x]) == x;
        }
      }
    }
  }

  /** Targets of the edges leaving `i`, most recent edge first. */
  function Targets(edges: seq<Edge>, i: nat): (r: seq<nat>)
    ensures forall j :: j in r ==> exists q :: 0 <= q < |edges| && edges[q].dst == j
  {
    if edges == [] then []
    else
      var n := |edges| - 1;
      (if edges[n].src == i then [edges[n].dst] else []) + Targets(edges[..n], i)
  }

  lemma {:induction false} TargetsAreEdges(edges: seq<Edge>, i: nat, j: nat)
    ensures j in Targets(edges, i) <==> HasEdge(edges, i, j)
  {
    if edges != [] {
      var n := |edges| - 1;
      TargetsAreEdges(edges[..n], i, j);
      if HasEdge(edges[..n], i, j) {
        var q :| 0 <= q < n && edges[..n][q].src == i && edges[..n][q].dst == j;
        assert edges[q].src == i && edges[q].dst == j;
      }
      if HasEdge(edges, i, j) && !(edges[n].src == i && edges[n].dst == j) {
        var q :| 0 <= q < |edges| && edges[q].src == i && edges[q].dst == j;
        assert edges[..n][q].src == i && edges[..n][q].dst == j;
      }
    }
  }

  function Neighbours(v: ValidatedGraph): Traversal.Adjacency {
    seq(|v.nodes|, i requires 0 <= i < |v.nodes| => Targets(v.edges, i))
  }

  lemma {:induction false} NeighboursAreChildren(v: ValidatedGraph)
    requires Sound(v)
    ensures var adj := Neighbours(v);
      && Traversal.WellFormed(adj) && |adj| == |v.nodes|
      && forall x: nat, y: nat :: Traversal.Edge(adj, x, y) <==>
           x < |v.nodes| && y < |v.nodes| && ParentOf(At(v, x), At(v, y))
  {
    var adj := Neighbours(v);
    forall x: nat, y: nat
      ensures Traversal.Edge(adj, x, y) <==> x < |v.nodes| && y < |v.nodes| && ParentOf(At(v, x), At(v, y))
    {
      TargetsAreEdges(v.edges, x, y);
    }
  }

  ghost function RankOf(v: ValidatedGraph): nat -> nat {
    (i: nat) => if i < |v.nodes| && v.nodes[i].Some? then Depth(At(v, i)) else 0
  }

  lemma {:induction false} NeighboursAreRanked(v: ValidatedGraph)
    requires Sound(v)
    ensures Traversal.Ranked(Neighbours(v), RankOf(v))
  {
    NeighboursAreChildren(v);
    forall x: nat, y: nat | Traversal.Edge(Neighbours(v), x, y) ensures RankOf(v)(y) < RankOf(v)(x) {
      ChildIsSmaller(At(v, x), At(v, y));
    }
  }

  /** The directories taken out of the graph in the given order. */
  ghost function Pick(v: ValidatedGraph, order: seq<nat>): seq<Directory>
    requires Complete(v.nodes) && forall x :: x in order ==> x < |v.nodes|
  {
    seq(|order|, i requires 0 <= i < |order| => assert order[i] in order; v.nodes[order[i]].value)
  }

  /** `out` holds each directory of the closure of `root` once. */
  ghost predicate Enumerates(out: seq<Directory>, root: Digest) {
    Distinct(out) && forall x :: x in Reach(root) <==> Lists(out, x)
  }

  ghost predicate Mentions(out: seq<Directory>, g: Digest) {
    exists i :: 0 <= i < |out| && References(out[i], g)
  }

  ghost predicate Lists(out: seq<Directory>, g: Digest) {
    exists i :: 0 <= i < |out| && DigestOf(out[i]) == g
  }

  /** Every child strictly before each of its parents. */
  ghost predicate LeavesFirst(out: seq<Directory>) {
    forall i, g :: 0 <= i < |out| && References(out[i], g) ==> Lists(out[..i], g)
  }

  /** Every directory but the first is referred to by an earlier one. */
  ghost predicate RootFirst(out: seq<Directory>) {
    forall j :: 0 < j < |out| ==> Mentions(out[..j], DigestOf(out[j]))
  }

  lemma {:induction false} OrderCoversAll(v: ValidatedGraph, order: seq<nat>)
    requires Sound(v) && v.root.Some? && Traversal.IsReachableSet(Neighbours(v), v.root.value, order)
    ensures forall i :: i in order <==> 0 <= i < |v.nodes|
  {
    NeighboursAreChildren(v);
    var adj, root := Neighbours(v), At(v, v.root.value);
    var all := Traversal.NodesBelow(|v.nodes|);
    assert Traversal.ClosedUnder(adj, all);
    assert Traversal.Within(order, all);
    var seen := set i | i in order && i < |v.nodes| :: At(v, i);
    ReachClosed(root);
    forall p, c | p in seen && ParentOf(p, c) ensures c in seen {
      var i :| i in order && i < |v.nodes| && At(v, i) == p;
      assert p in Reach(root) && c in Reach(root);
      var j :| 0 <= j < |v.nodes| && At(v, j) == c;
      assert Traversal.Edge(adj, i, j);
      assert i in (set x | x in order) && j in (set x | x in order);
    }
    ReachIsLeast(root, seen);
    forall i | 0 <= i < |v.nodes| ensures i in order {
      assert At(v, i) in Reach(root);
      var j :| j in order && j < |v.nodes| && At(v, j) == At(v, i);
      assert v.nodes[i] == v.nodes[j];
    }
  }

  lemma {:induction false} PickEnumerates(v: ValidatedGraph, order: seq<nat>)
    requires Sound(v) && v.root.Some? && Distinct(order) && forall i :: i in order <==> 0 <= i < |v.nodes|
    ensures Enumerates(Pick(v, order), At(v, v.root.value))
  {
    var out := Pick(v, order);
    forall i, j | 0 <= i < j < |out| ensures out[i] != out[j] {
      assert order[i] in order && order[j] in order;
      assert v.nodes[order[i]] != v.nodes[order[j]];
    }
    forall x ensures x in Reach(At(v, v.root.value)) <==> Lists(out, x) {
      if x in Reach(At(v, v.root.value)) {
        var i :| 0 <= i < |v.nodes| && At(v, i) == x;
        assert i in order;
        var k :| 0 <= k < |order| && order[k] == i;
        assert DigestOf(out[k]) == x;
      }
      if Lists(out, x) {
        var k :| 0 <= k < |out| && DigestOf(out[k]) == x;
        assert order[k] in order && At(v, order[k]) == x;
      }
    }
  }

  lemma {:induction false} PickLeavesFirst(v: ValidatedGraph, order: seq<nat>)
    requires Sound(v) && v.root.Some? && (forall i :: i in order <==> 0 <= i < |v.nodes|)
    requires Traversal.ChildrenFirst(Neighbours(v), order)
    ensures LeavesFirst(Pick(v, order))
  {
    NeighboursAreChildren(v);
    var out, adj, root := Pick(v, order), Neighbours(v), At(v, v.root.value);
    ReachClosed(root);
    forall i, g | 0 <= i < |out| && References(out[i], g) ensures Lists(out[..i], g) {
      var x := order[i];
      assert x in order && ParentOf(At(v, x), g) && At(v, x) in Reach(root) && g in Reach(root);
      var y :| 0 <= y < |v.nodes| && At(v, y) == g;
      assert Traversal.Edge(adj, x, y);
      var k :| 0 <= k < i && order[..i][k] == y;
      assert DigestOf(out[..i][k]) == g;
    }
  }

  lemma {:induction false} PickRootFirst(v: ValidatedGraph, order: seq<nat>)
    requires Sound(v) && (forall i :: i in order <==> 0 <= i < |v.nodes|)
    requires Traversal.ParentEarlier(Neighbours(v), order)
    ensures RootFirst(Pick(v, order))
  {
    NeighboursAreChildren(v);
    var out, adj := Pick(v, order), Neighbours(v);
    forall j | 0 < j < |out| ensures Mentions(out[..j], DigestOf(out[j])) {
      assert Traversal.HasParentIn(adj, order[..j], order[j]);
      var i :| 0 <= i < j && Traversal.Edge(adj, order[..j][i], order[j]);
      assert References(out[..j][i], DigestOf(out[j]));
    }
  }

  /** Takes the directories out of the nodes, in the given order. */
  method TakeInOrder(v: ValidatedGraph, order: seq<nat>) returns (out: seq<Directory>)
    requires Complete(v.nodes) && Distinct(order) && forall x :: x in order ==> x < |v.nodes|
    ensures out == Pick(v, order)
  {
    out := [];
    var nodes := v.nodes;
    for i := 0 to |order|
      invariant |nodes| == |v.nodes| && out == Pick(v, order)[..i]
      invariant forall x :: 0 <= x < |nodes| && x !in order[..i] ==> nodes[x] == v.nodes[x]
    {
      assert order[i] in order && order[i] !in order[..i];
      if nodes[order[i]].Some? {
        out := out + [nodes[order[i]].value];
      }
      nodes := nodes[order[i] := None];
    }
  }

  method DrainLeavesToRoot(v: ValidatedGraph) returns (out: seq<Directory>)
    requires Sound(v)
    ensures v.root.None? ==> out == []
    ensures v.root.Some? ==> Enumerates(out, At(v, v.root.value)) && LeavesFirst(out)
    ensures v.root.Some? ==> out != [] && DigestOf(out[|out| - 1]) == At(v, v.root.value)
  {
    if v.root.None? {
      return [];
    }
    NeighboursAreRanked(v);
    var order := Traversal.PostOrder(Neighbours(v), v.root.value, RankOf(v));
    OrderCoversAll(v, order);
    PickEnumerates(v, order);
    PickLeavesFirst(v, order);
    out := TakeInOrder(v, order);
  }

  method DrainRootToLeaves(v: ValidatedGraph) returns (out: seq<Directory>)
    requires Sound(v)
    ensures v.root.None? ==> out == []
    ensures v.root.Some? ==> Enumerates(out, At(v, v.root.value)) && RootFirst(out)
    ensures v.root.Some? ==> out != [] && DigestOf(out[0]) == At(v, v.root.value)
  {
    if v.root.None? {
      return [];
    }
    NeighboursAreRanked(v);
    var order := Traversal.BreadthFirst(Neighbours(v), v.root.value);
    OrderCoversAll(v, order);
    PickEnumerates(v, order);
    PickRootFirst(v, order);
    out := TakeInOrder(v, order);
  }
}

/** What an insertion does to the edges of a graph in any state, and when a directory that is sent again makes it
    panic. */
module GraphEffects {
  import opened Prelude
  import opened Directories
  import opened GraphStates

  // ---------- The edges an insertion adds ----------

  /** Edge `x` was added for entry `e`: it waits exactly if the child is missing. */
  ghost predicate FromEntry(g: State, x: Edge, e: Entry)
    requires Indexed(g)
  {
    && e.node.DirectoryNode? && e.node.digest in g.ixOf && x.dst == g.ixOf[e.node.digest]
    && (x.pending.None? <==> e.node.digest in Filled(g))
    && (x.pending.Some? ==> x.pending.value.size == e.node.size)
  }

  ghost predicate HasSource(g: State, x: Edge, d: Directory, k: nat)
    requires Indexed(g) && k <= |d.nodes|
  {
    exists m :: 0 <= m < k && FromEntry(g, x, d.nodes[m])
  }

  ghost predicate HasNewEdge(g: State, lo: nat, e: Entry)
    requires Indexed(g)
  {
    exists q :: lo <= q < |g.edges| && FromEntry(g, g.edges[q], e)
  }

  /** The edges from `lo` on are those of the first `k` entries of `d`. */
  ghost predicate NewEdges(g: State, lo: nat, d: Directory, k: nat) {
    && Indexed(g) && lo <= |g.edges| <= lo + k && k <= |d.nodes|
    && (forall q :: lo <= q < |g.edges| ==> HasSource(g, g.edges[q], d, k))
    && (forall m :: 0 <= m < k && d.nodes[m].node.DirectoryNode? ==> HasNewEdge(g, lo, d.nodes[m]))
  }

  /** The lookup table only grows, and the same directories are present, apart perhaps from `d`. */
  ghost predicate Widens(g: State, g': State, d: Directory) {
    && Indexed(g) && Indexed(g') && (forall k :: k in g.ixOf ==> k in g'.ixOf && g'.ixOf[k] == g.ixOf[k])
    && (forall k :: k != DigestOf(d) ==> (k in Filled(g') <==> k in Filled(g)))
  }

  lemma {:induction false} FromEntryWidens(g: State, g': State, d: Directory, x: Edge, e: Entry)
    requires Widens(g, g', d) && e in d.nodes && FromEntry(g, x, e)
    ensures FromEntry(g', x, e)
  {
    hide Filled;
    assert PointsTo(e, e.node.digest) && ParentOf(DigestOf(d), e.node.digest);
    ChildIsSmaller(DigestOf(d), e.node.digest);
  }

  lemma {:induction false} NewEdgesWiden(g: State, g': State, lo: nat, d: Directory, k: nat)
    requires Widens(g, g', d) && NewEdges(g, lo, d, k) && |g.edges| == |g'.edges|
    requires forall q :: lo <= q < |g.edges| ==> g'.edges[q] == g.edges[q]
    ensures NewEdges(g', lo, d, k)
  {
    hide Widens, FromEntry;
    assert Indexed(g') by { WidensIndexed(g, g', d); }
    forall q | lo <= q < |g'.edges| ensures HasSource(g', g'.edges[q], d, k) {
      assert HasSource(g, g.edges[q], d, k);
      var m :| 0 <= m < k && FromEntry(g, g.edges[q], d.nodes[m]);
      FromEntryWidens(g, g', d, g.edges[q], d.nodes[m]);
    }
    forall m | 0 <= m < k && d.nodes[m].node.DirectoryNode? ensures HasNewEdge(g', lo, d.nodes[m]) {
      assert HasNewEdge(g, lo, d.nodes[m]);
      var q :| lo <= q < |g.edges| && FromEntry(g, g.edges[q], d.nodes[m]);
      FromEntryWidens(g, g', d, g.edges[q], d.nodes[m]);
    }
  }

  lemma {:induction false} WidensIndexed(g: State, g': State, d: Directory)
    requires Widens(g, g', d)
    ensures Indexed(g) && Indexed(g')
  {
  }

  lemma {:induction false} NewEdgesStart(g: State, d: Directory)
    requires Indexed(g)
    ensures NewEdges(g, |g.edges|, d, 0)
  {
  }

  lemma {:induction false} NodeWidens(g: State, k: Digest, d: Directory)
    requires Indexed(g)
    ensures Widens(g, WithNode(g, k), d)
  {
    assert Filled(WithNode(g, k)) == Filled(g);
  }

  /** One more entry of `d` that is a directory: its edge is added. */
  lemma {:induction false} NewEdgesEdge(g: State, lo: nat, ix: nat, d: Directory, k: nat)
    requires NewEdges(g, lo, d, k) && k < |d.nodes| && d.nodes[k].node.DirectoryNode? && ix < |g.nodes|
    ensures var e := d.nodes[k]; var g1 := WithNode(g, e.node.digest);
      Indexed(g1) && NewEdges(g1.(edges := g1.edges + [EdgeFor(g1, ix, e)]), lo, d, k + 1)
  {
    var e := d.nodes[k];
    var g1 := WithNode(g, e.node.digest);
    NodeWidens(g, e.node.digest, d);
    NewEdgesWiden(g, g1, lo, d, k);
    var x := EdgeFor(g1, ix, e);
    var g2 := g1.(edges := g1.edges + [x]);
    assert Indexed(g2) && Filled(g2) == Filled(g1);
    assert FromEntry(g2, x, e);
    NewEdgesAppend(g1, g2, lo, d, k, x);
  }

  lemma {:induction false} NewEdgesAppend(g: State, g': State, lo: nat, d: Directory, k: nat, x: Edge)
    requires NewEdges(g, lo, d, k) && k < |d.nodes| && Indexed(g') && Filled(g') == Filled(g)
    requires g'.ixOf == g.ixOf && g'.edges == g.edges + [x] && FromEntry(g', x, d.nodes[k])
    ensures NewEdges(g', lo, d, k + 1)
  {
    hide Indexed, Filled, FromEntry;
    forall q | lo <= q < |g'.edges| ensures HasSource(g', g'.edges[q], d, k + 1) {
      if q < |g.edges| {
        assert HasSource(g, g.edges[q], d, k);
        var m :| 0 <= m < k && FromEntry(g, g.edges[q], d.nodes[m]);
        FromEntrySame(g, g', g.edges[q], d.nodes[m]);
      } else {
        assert FromEntry(g', g'.edges[q], d.nodes[k]);
      }
    }
    forall m | 0 <= m < k + 1 && d.nodes[m].node.DirectoryNode? ensures HasNewEdge(g', lo, d.nodes[m]) {
      if m < k {
        assert HasNewEdge(g, lo, d.nodes[m]);
        var q :| lo <= q < |g.edges| && FromEntry(g, g.edges[q], d.nodes[m]);
        FromEntrySame(g, g', g.edges[q], d.nodes[m]);
        assert g'.edges[q] == g.edges[q];
      } else {
        assert FromEntry(g', g'.edges[|g.edges|], d.nodes[k]);
      }
    }
  }

  lemma {:induction false} FromEntrySame(g: State, g': State, x: Edge, e: Entry)
    requires Indexed(g) && Indexed(g') && Filled(g') == Filled(g) && g'.ixOf == g.ixOf && FromEntry(g, x, e)
    ensures FromEntry(g', x, e)
  {
  }

  lemma {:induction false} NewEdgesSkip(g: State, lo: nat, d: Directory, k: nat)
    requires NewEdges(g, lo, d, k) && k < |d.nodes| && !d.nodes[k].node.DirectoryNode?
    ensures NewEdges(g, lo, d, k + 1)
  {
    hide FromEntry, Indexed;
    forall q | lo <= q < |g.edges| ensures HasSource(g, g.edges[q], d, k + 1) {
      assert HasSource(g, g.edges[q], d, k);
      var m :| 0 <= m < k && FromEntry(g, g.edges[q], d.nodes[m]);
    }
  }

  /** Entry `e` records a wrong size for a directory in `filled`. */
  ghost predicate Refuted(e: Entry, filled: set<Digest>) {
    && e.node.DirectoryNode? && e.node.digest in filled
    && !(e.node.digest.Blake3? && e.node.size == Size(e.node.digest.preimage))
  }

  /** How many entries come before the first one that is refuted. */
  ghost function Unrefuted(nodes: seq<Entry>, filled: set<Digest>): (k: nat)
    ensures k <= |nodes| && (k < |nodes| ==> Refuted(nodes[k], filled))
    ensures forall m :: 0 <= m < k ==> !Refuted(nodes[m], filled)
  {
    if nodes == [] || Refuted(nodes[0], filled) then 0 else 1 + Unrefuted(nodes[1..], filled)
  }

  /** The first loop after `k` entries, with the edges it has added. */
  ghost predicate Wires(g0: State, g: State, ix: nat, d: Directory, k: nat) {
    Wiring(g0, g, ix, d, k) && NewEdges(g, |g0.edges|, d, k)
  }

  lemma {:induction false} StopsAtRefuted(g: State, g2: State, ix: nat, d: Directory, k: nat)
    requires Indexed(g) && Wiring(g, g2, ix, d, k) && (k < |d.nodes| ==> Refuted(d.nodes[k], Filled(g)))
    ensures k == Unrefuted(d.nodes, Filled(g))
  {
    hide Grows, Filled, Inserting, Size;
    forall m | 0 <= m < k ensures !Refuted(d.nodes[m], Filled(g)) {
      if d.nodes[m].node.DirectoryNode? { FilledMember(g, d.nodes[m].node.digest); }
    }
  }

  // ---------- The effect of an insertion ----------

  /** Edges stay, and only those that lead to `d` may lose their weight; new ones are those of the entries of `d`
      before the first that is refuted. */
  ghost predicate EdgesRule(g: State, d: Directory, g': State)
    requires Indexed(g) && Indexed(g')
  {
    && |g.edges| <= |g'.edges|
    && (forall k :: k in g.ixOf ==> k in g'.ixOf && g'.ixOf[k] == g.ixOf[k])
    && (forall q :: 0 <= q < |g.edges| ==> g'.edges[q].dst == g.edges[q].dst)
    && (forall q :: 0 <= q < |g.edges| && g.keys[g.edges[q].dst] != DigestOf(d) ==> g'.edges[q] == g.edges[q])
    && (DigestOf(d) !in Filled(g) ==> NewEdges(g', |g.edges|, d, Unrefuted(d.nodes, Filled(g))))
  }

  /** What was accepted is present, and sending it again changes nothing. */
  ghost predicate AcceptedRule(g: State, d: Directory, r: Result<(), GraphError>, g': State)
    requires Indexed(g) && Indexed(g')
  {
    && Filled(g') == Filled(g) + (if r.Ok? then {DigestOf(d)} else {})
    && (DigestOf(d) in Filled(g) ==> g' == g && r.Ok?)
  }

  /** A rejection is for a size, or a panic; if no child is contradicted, the same insertion would now panic, and
      otherwise no edge has lost its weight. */
  ghost predicate RejectedRule(g: State, d: Directory, r: Result<(), GraphError>, g': State)
    requires Indexed(g) && Indexed(g')
  {
    && (r.Err? ==> r.error == WrongSize || r.error == Panicked)
    && (r.Err? && !Contradicted(g, d) ==> Panics(g', d))
    && (Contradicted(g, d) && DigestOf(d) !in Filled(g) ==> r == Err(WrongSize) && g.edges <= g'.edges)
  }

  /** Every edge to `d`, if there is one, still waits and records its size. */
  ghost predicate ParentsWait(g: State, d: Directory)
    requires Indexed(g)
  {
    DigestOf(d) in g.ixOf ==> PendingAgree(g.edges, g.ixOf[DigestOf(d)], d)
  }

  /** The effect of inserting `d` into a graph in any state, and exactly when it is accepted. */
  ghost predicate AddEffect(g: State, d: Directory, r: Result<(), GraphError>, g': State)
    requires Indexed(g)
  {
    && Indexed(g') && EdgesRule(g, d, g') && AcceptedRule(g, d, r, g') && RejectedRule(g, d, r, g')
    && (r.Ok? <==> DigestOf(d) in Filled(g) || (!Contradicted(g, d) && ParentsWait(g, d)))
  }

  lemma {:induction false} EffectPresent(g: State, d: Directory)
    requires Indexed(g) && IsFilled(g, DigestOf(d))
    ensures AddEffect(g, d, Ok(()), g)
  {
    FilledMember(g, DigestOf(d));
  }

  /** What the first loop leaves behind, compared with the graph before the node was added. */
  lemma {:induction false} WiresEffect(g: State, d: Directory, g2: State, k: nat)
    requires Indexed(g) && Indexed(WithNode(g, DigestOf(d))) && !IsFilled(g, DigestOf(d))
    requires var g1 := WithNode(g, DigestOf(d)); Wires(g1, g2, g1.ixOf[DigestOf(d)], d, k)
    ensures Indexed(g2) && Filled(g2) == Filled(g) && g.edges <= g2.edges && NewEdges(g2, |g.edges|, d, k)
    ensures (k < |d.nodes| ==> Refuted(d.nodes[k], Filled(WithNode(g, DigestOf(d))))) ==>
      k == Unrefuted(d.nodes, Filled(g))
    ensures forall x :: x in g.ixOf ==> x in g2.ixOf && g2.ixOf[x] == g.ixOf[x]
    ensures DigestOf(d) !in Filled(g)
    ensures ParentsWait(g, d) <==> PendingAgree(g2.edges, WithNode(g, DigestOf(d)).ixOf[DigestOf(d)], d)
  {
    hide Wiring, NewEdges, Contradicted, Filled, Refuted;
    WiredFrom(g, d, g2, k);
    if k < |d.nodes| ==> Refuted(d.nodes[k], Filled(WithNode(g, DigestOf(d)))) {
      StopsAtRefuted(WithNode(g, DigestOf(d)), g2, WithNode(g, DigestOf(d)).ixOf[DigestOf(d)], d, k);
    }
    SettleAgrees(g.edges, g2.edges, WithNode(g, DigestOf(d)).ixOf[DigestOf(d)], d, 0, Panicked);
    if DigestOf(d) !in g.ixOf {
      assert forall q :: 0 <= q < |g.edges| ==> g.edges[q].dst != |g.nodes|;
    }
    GrowthKeepsFilled(g, g2, WithNode(g, DigestOf(d)).ixOf[DigestOf(d)]);
    FilledMember(g, DigestOf(d));
  }

  /** The node for `d` itself contradicts nothing. */
  lemma {:induction false} NodeContradicts(g: State, d: Directory)
    requires Indexed(g) && Indexed(WithNode(g, DigestOf(d)))
    ensures Contradicted(WithNode(g, DigestOf(d)), d) <==> Contradicted(g, d)
  {
    assert Filled(WithNode(g, DigestOf(d))) == Filled(g);
    ContradictedBySizes(g, d);
    ContradictedBySizes(WithNode(g, DigestOf(d)), d);
  }

  lemma {:induction false} EffectContradicted(g: State, d: Directory, g': State, k: nat)
    requires Indexed(g) && Indexed(WithNode(g, DigestOf(d))) && !IsFilled(g, DigestOf(d)) && Contradicted(g, d)
    requires var g1 := WithNode(g, DigestOf(d));
      Wires(g1, g', g1.ixOf[DigestOf(d)], d, k) && k < |d.nodes| && Refuted(d.nodes[k], Filled(g1))
    ensures AddEffect(g, d, Err(WrongSize), g')
  {
    hide Wires, Wiring, Refuted, Filled, Contradicted, NewEdges, ParentsWait;
    WiresEffect(g, d, g', k);
  }

  /** Weights taken from edges to `d` leave the new edges alone. */
  lemma {:induction false} SettledEffect(g: State, d: Directory, g2: State, g': State, ix: nat, n: nat)
    requires Indexed(g) && Indexed(g2) && g.edges <= g2.edges && NewEdges(g2, |g.edges|, d, |d.nodes|)
    requires forall x :: x in g.ixOf ==> x in g2.ixOf && g2.ixOf[x] == g.ixOf[x]
    requires ix < |g2.keys| && g2.keys[ix] == DigestOf(d)
    requires forall q :: |g.edges| <= q < |g2.edges| ==> g2.edges[q].dst != ix
    requires g'.edges == Settled(g2.edges, ix, n) && g'.ixOf == g2.ixOf && Widens(g2, g', d)
    requires |d.nodes| == Unrefuted(d.nodes, Filled(g))
    ensures Indexed(g') && EdgesRule(g, d, g')
  {
    hide HasSource, HasNewEdge, Filled;
    NewEdgesWiden(g2, g', |g.edges|, d, |d.nodes|);
    forall q | 0 <= q < |g.edges| && g.keys[g.edges[q].dst] != DigestOf(d) ensures g'.edges[q] == g.edges[q] {
      var k := g.keys[g.edges[q].dst];
      assert g2.ixOf[k] == g.edges[q].dst && g2.keys[g2.ixOf[k]] == k;
    }
  }

  lemma {:induction false} EffectUnsettled(g: State, d: Directory, g2: State, q: nat, error: GraphError)
    requires Indexed(g) && Indexed(WithNode(g, DigestOf(d))) && !IsFilled(g, DigestOf(d)) && !Contradicted(g, d)
    requires var g1 := WithNode(g, DigestOf(d)); var ix := g1.ixOf[DigestOf(d)];
      Wires(g1, g2, ix, d, |d.nodes|) && SettleFailsAt(g2.edges, ix, d, q, error)
    ensures var ix := WithNode(g, DigestOf(d)).ixOf[DigestOf(d)];
      AddEffect(g, d, Err(error), g2.(edges := Settled(g2.edges, ix, q)))
  {
    hide Wiring, NewEdges, Contradicted, Filled, SettleFailsAt, EdgesRule, Panics, ParentsWait, PendingAgree;
    var k := DigestOf(d);
    var ix := WithNode(g, k).ixOf[k];
    var g' := g2.(edges := Settled(g2.edges, ix, q));
    WiresEffect(g, d, g2, |d.nodes|);
    WiredFrom(g, d, g2, |d.nodes|);
    assert g2.ixOf[k] == ix && !IsFilled(g2, k);
    SettledPanics(g2, d, q, error);
    FailsForSize(g2.edges, ix, d, q, error);
    SameFilled(g2, g');
    SettledEffect(g, d, g2, g', ix, q);
  }

  lemma {:induction false} FailsForSize(edges: seq<Edge>, ix: nat, d: Directory, q: nat, error: GraphError)
    requires SettleFailsAt(edges, ix, d, q, error)
    ensures (error == WrongSize || error == Panicked) && !PendingAgree(edges, ix, d)
  {
  }

  lemma {:induction false} SameFilled(g: State, g': State)
    requires Indexed(g) && g'.nodes == g.nodes && g'.ixOf == g.ixOf && g'.keys == g.keys && |g'.edges| == |g.edges|
    requires forall q :: 0 <= q < |g.edges| ==> g'.edges[q].src == g.edges[q].src && g'.edges[q].dst == g.edges[q].dst
    ensures Indexed(g') && Filled(g') == Filled(g) && forall d :: Widens(g, g', d)
  {
  }

  lemma {:induction false} EffectFilled(g: State, d: Directory, g2: State)
    requires Indexed(g) && Indexed(WithNode(g, DigestOf(d))) && !IsFilled(g, DigestOf(d)) && !Contradicted(g, d)
    requires var g1 := WithNode(g, DigestOf(d)); var ix := g1.ixOf[DigestOf(d)];
      Wires(g1, g2, ix, d, |d.nodes|) && PendingAgree(g2.edges, ix, d)
    ensures var ix := WithNode(g, DigestOf(d)).ixOf[DigestOf(d)];
      ix < |g2.nodes| && AddEffect(g, d, Ok(()), Fill(g2, ix, d))
  {
    hide Wiring, NewEdges, Contradicted, Filled, EdgesRule, ParentsWait, PendingAgree;
    var k := DigestOf(d);
    var ix := WithNode(g, k).ixOf[k];
    WiresEffect(g, d, g2, |d.nodes|);
    WiredFrom(g, d, g2, |d.nodes|);
    var g' := Fill(g2, ix, d);
    FillIndexed(g2, ix, d);
    assert g'.ixOf == g2.ixOf && g'.edges == Settled(g2.edges, ix, 0);
    assert Widens(g2, g', d);
    SettledEffect(g, d, g2, g', ix, 0);
  }

  // ---------- A directory that was rejected because of its parents ----------

  /** Those of the entries that point at `d` record its size. */
  ghost predicate RecordRight(nodes: seq<Entry>, d: Directory) {
    forall m :: 0 <= m < |nodes| && PointsTo(nodes[m], DigestOf(d)) ==> nodes[m].node.size == Size(d)
  }

  ghost predicate TakenAt(edges: seq<Edge>, ix: nat, d: Directory, lo: nat, m: nat) {
    m < lo <= |edges| && edges[m].dst == ix && edges[m].pending.None? && PendingAgree(edges[m + 1..lo], ix, d)
  }

  ghost predicate TakenBefore(edges: seq<Edge>, ix: nat, d: Directory, lo: nat) {
    exists m: nat :: TakenAt(edges, ix, d, lo, m)
  }

  /** `d` is known and missing; an edge to it before `lo` has lost its weight, and all from `lo` on still wait. */
  ghost predicate Blocked(g: State, d: Directory, lo: nat) {
    && Indexed(g) && lo <= |g.edges| && DigestOf(d) in g.ixOf && DigestOf(d) !in Filled(g)
    && TakenBefore(g.edges, g.ixOf[DigestOf(d)], d, lo)
    && forall q :: lo <= q < |g.edges| && g.edges[q].dst == g.ixOf[DigestOf(d)] ==> g.edges[q].pending.Some?
  }

  ghost predicate AgreeFrom(g: State, d: Directory, lo: nat)
    requires Indexed(g) && lo <= |g.edges| && DigestOf(d) in g.ixOf
  {
    PendingAgree(g.edges[lo..], g.ixOf[DigestOf(d)], d)
  }

  lemma {:induction false} PanicsBlocks(g: State, d: Directory)
    requires Indexed(g) && Panics(g, d)
    ensures Blocked(g, d, |g.edges|) && AgreeFrom(g, d, |g.edges|)
  {
    FilledMember(g, DigestOf(d));
    var ix := g.ixOf[DigestOf(d)];
    var q: nat :| SettleFailsAt(g.edges, ix, d, q, Panicked);
    assert g.edges[q + 1..|g.edges|] == g.edges[q + 1..];
    assert TakenAt(g.edges, ix, d, |g.edges|, q);
  }

  lemma {:induction false} AgreeSplit(edges: seq<Edge>, ix: nat, d: Directory, a: nat, b: nat)
    requires a <= b <= |edges|
    ensures PendingAgree(edges[a..], ix, d) <==> PendingAgree(edges[a..b], ix, d) && PendingAgree(edges[b..], ix, d)
  {
    assert edges[a..] == edges[a..b] + edges[b..];
    AgreeConcat(edges[a..b], edges[b..], ix, d);
  }

  lemma {:induction false} AgreeConcat(a: seq<Edge>, b: seq<Edge>, ix: nat, d: Directory)
    ensures PendingAgree(a + b, ix, d) <==> PendingAgree(a, ix, d) && PendingAgree(b, ix, d)
  {
    forall q | 0 <= q < |a| ensures (a + b)[q] == a[q] {
    }
    forall q | 0 <= q < |b| ensures (a + b)[|a| + q] == b[q] {
    }
  }

  /** It then panics exactly if no child is contradicted, and all edges since record its size. */
  lemma {:induction false} BlockedPanics(g: State, d: Directory, lo: nat)
    requires Blocked(g, d, lo)
    ensures Panics(g, d) <==> !Contradicted(g, d) && AgreeFrom(g, d, lo)
  {
    hide PendingAgree, Contradicted, Filled;
    FilledMember(g, DigestOf(d));
    var edges, ix := g.edges, g.ixOf[DigestOf(d)];
    var m: nat :| TakenAt(edges, ix, d, lo, m);
    AgreeSplit(edges, ix, d, m + 1, lo);
    if AgreeFrom(g, d, lo) {
      assert SettleFailsAt(edges, ix, d, m, Panicked);
    }
    if Panics(g, d) {
      var q: nat :| SettleFailsAt(edges, ix, d, q, Panicked);
      assert q < lo;
      AgreeSplit(edges, ix, d, q + 1, lo);
    }
  }

  /** And otherwise it is rejected for its size: it is never accepted any more. */
  lemma {:induction false} BlockedIsRejected(g: State, d: Directory, lo: nat, r: Result<(), GraphError>, g': State)
    requires Blocked(g, d, lo) && AddOutcome(g, d, r, g') && AddEffect(g, d, r, g')
    ensures r == Err(if Panics(g, d) then Panicked else WrongSize)
  {
    hide Contradicted, Filled, EdgesRule, AcceptedRule, Panics;
    var ix := g.ixOf[DigestOf(d)];
    var m: nat :| TakenAt(g.edges, ix, d, lo, m);
    assert !PendingAgree(g.edges, ix, d);
  }

  /** Inserting another directory keeps it so. */
  lemma {:induction false} BlockedStays(g: State, d: Directory, lo: nat, x: Directory, r: Result<(), GraphError>,
        g': State)
    requires Blocked(g, d, lo) && AddEffect(g, x, r, g') && x != d
    ensures Blocked(g', d, lo)
  {
    hide Contradicted, Panics, ParentsWait, HasSource, HasNewEdge, Unrefuted;
    var ix := g.ixOf[DigestOf(d)];
    var m: nat :| TakenAt(g.edges, ix, d, lo, m);
    var old', new' := g.edges[m + 1..lo], g'.edges[m + 1..lo];
    assert |old'| == |new'|;
    assert forall q :: 0 <= q < |old'| ==> old'[q] == g.edges[m + 1 + q] && new'[q] == g'.edges[m + 1 + q];
    assert g.keys[ix] == DigestOf(d);
    assert PendingAgree(new', ix, d);
    assert TakenAt(g'.edges, ix, d, lo, m);
    forall q | lo <= q < |g'.edges| && g'.edges[q].dst == ix ensures g'.edges[q].pending.Some? {
      if q >= |g.edges| { NewEdgeWaits(g', |g.edges|, x, Unrefuted(x.nodes, Filled(g)), q, d); }
    }
  }

  /** A new edge to a missing directory waits, and records what the entry says. */
  lemma {:induction false} NewEdgeWaits(g: State, n: nat, x: Directory, k: nat, q: nat, d: Directory)
    requires NewEdges(g, n, x, k) && n <= q < |g.edges|
    requires DigestOf(d) in g.ixOf && DigestOf(d) !in Filled(g) && g.edges[q].dst == g.ixOf[DigestOf(d)]
    ensures g.edges[q].pending.Some? && (RecordRight(x.nodes[..k], d) ==> g.edges[q].pending.value.size == Size(d))
  {
    hide Filled, Size, HasNewEdge;
    assert HasSource(g, g.edges[q], x, k);
    var m :| 0 <= m < k && FromEntry(g, g.edges[q], x.nodes[m]);
    var e := x.nodes[m];
    assert e.node.digest == DigestOf(d) by { SameNode(g, e.node.digest, DigestOf(d)); }
    assert x.nodes[..k][m] == e && PointsTo(e, DigestOf(d));
  }

  lemma {:induction false} SameNode(g: State, a: Digest, b: Digest)
    requires Indexed(g) && a in g.ixOf && b in g.ixOf && g.ixOf[a] == g.ixOf[b]
    ensures a == b
  {
    assert g.keys[g.ixOf[a]] == a && g.keys[g.ixOf[b]] == b;
  }

  /** The edges since agree if and only if they did before and those of the new directory do. */
  lemma {:induction false} AgreeStep(g: State, d: Directory, lo: nat, x: Directory, r: Result<(), GraphError>,
        g': State)
    requires Blocked(g, d, lo) && AddEffect(g, x, r, g') && x != d
    ensures Indexed(g') && DigestOf(d) in g'.ixOf && lo <= |g'.edges|
    ensures DigestOf(x) in Filled(g) ==> g' == g
    ensures DigestOf(x) !in Filled(g) ==> (AgreeFrom(g', d, lo) <==>
      AgreeFrom(g, d, lo) && RecordRight(x.nodes[..Unrefuted(x.nodes, Filled(g))], d))
  {
    hide Contradicted, Panics, ParentsWait, Filled, NewEdges, Unrefuted, RecordRight;
    var ix, n := g.ixOf[DigestOf(d)], |g.edges|;
    assert g.keys[ix] == DigestOf(d);
    AgreeSplit(g'.edges, ix, d, lo, n);
    SameEdgesAgree(g.edges[lo..], g'.edges[lo..n], ix, d);
    if DigestOf(x) !in Filled(g) {
      NewEdgesAgree(g', n, x, Unrefuted(x.nodes, Filled(g)), d);
    }
  }

  lemma {:induction false} SameEdgesAgree(a: seq<Edge>, b: seq<Edge>, ix: nat, d: Directory)
    requires |a| == |b| && forall q :: 0 <= q < |a| ==> a[q].dst == b[q].dst && (a[q].dst == ix ==> a[q] == b[q])
    ensures PendingAgree(a, ix, d) <==> PendingAgree(b, ix, d)
  {
  }

  /** The new edges to `d` agree exactly if the entries do. */
  lemma {:induction false} NewEdgesAgree(g: State, n: nat, x: Directory, k: nat, d: Directory)
    requires NewEdges(g, n, x, k) && DigestOf(d) in g.ixOf && DigestOf(d) !in Filled(g)
    ensures PendingAgree(g.edges[n..], g.ixOf[DigestOf(d)], d) <==> RecordRight(x.nodes[..k], d)
  {
    hide Filled, HasSource, HasNewEdge, Size;
    var since, ix := g.edges[n..], g.ixOf[DigestOf(d)];
    if RecordRight(x.nodes[..k], d) {
      forall q | 0 <= q < |since| && since[q].dst == ix
        ensures since[q].pending.Some? && since[q].pending.value.size == Size(d)
      {
        assert since[q] == g.edges[n + q];
        NewEdgeWaits(g, n, x, k, n + q, d);
      }
    }
    if PendingAgree(since, ix, d) {
      EntriesAgree(g, n, x, k, d);
    }
  }

  lemma {:induction false} EntriesAgree(g: State, n: nat, x: Directory, k: nat, d: Directory)
    requires NewEdges(g, n, x, k) && DigestOf(d) in g.ixOf && DigestOf(d) !in Filled(g)
    requires PendingAgree(g.edges[n..], g.ixOf[DigestOf(d)], d)
    ensures RecordRight(x.nodes[..k], d)
  {
    hide Filled, HasSource, HasNewEdge, PendingAgree, Size;
    forall m | 0 <= m < k && PointsTo(x.nodes[m], DigestOf(d)) ensures x.nodes[m].node.size == Size(d) {
      assert HasNewEdge(g, n, x.nodes[m]);
      EntryAgrees(g, n, x.nodes[m], d);
    }
  }

  lemma {:induction false} EntryAgrees(g: State, n: nat, e: Entry, d: Directory)
    requires Indexed(g) && n <= |g.edges| && HasNewEdge(g, n, e) && PointsTo(e, DigestOf(d))
    requires DigestOf(d) in g.ixOf && DigestOf(d) !in Filled(g)
    requires PendingAgree(g.edges[n..], g.ixOf[DigestOf(d)], d)
    ensures e.node.size == Size(d)
  {
    hide Filled, Indexed, Size;
    var q :| n <= q < |g.edges| && FromEntry(g, g.edges[q], e);
    assert g.edges[n..][q - n] == g.edges[q];
  }

  /** As long as `d` is missing, all edges to it have their weight. */
  ghost predicate EdgesWait(g: State, d: Directory)
    requires Indexed(g)
  {
    DigestOf(d) in g.ixOf && DigestOf(d) !in Filled(g) ==>
      forall q :: 0 <= q < |g.edges| && g.edges[q].dst == g.ixOf[DigestOf(d)] ==> g.edges[q].pending.Some?
  }

  lemma {:induction false} WaitingNeverPanics(g: State, d: Directory)
    requires Indexed(g) && EdgesWait(g, d)
    ensures !Panics(g, d)
  {
    FilledMember(g, DigestOf(d));
  }

  /** Only an attempt that gets past the children of `d` takes weights from edges to it. */
  lemma {:induction false} WaitingStays(g: State, d: Directory, x: Directory, r: Result<(), GraphError>, g': State)
    requires Indexed(g) && EdgesWait(g, d) && AddEffect(g, x, r, g') && (x == d ==> r.Ok? || Contradicted(g, d))
    ensures EdgesWait(g', d)
  {
    hide Contradicted, Panics, ParentsWait, HasSource, HasNewEdge, Unrefuted;
    if DigestOf(d) in g'.ixOf && DigestOf(d) !in Filled(g') {
      forall q | 0 <= q < |g'.edges| && g'.edges[q].dst == g'.ixOf[DigestOf(d)] ensures g'.edges[q].pending.Some? {
        if q >= |g.edges| {
          NewEdgeWaits(g', |g.edges|, x, Unrefuted(x.nodes, Filled(g)), q, d);
        } else {
          KeptEdge(g, g', q, d);
        }
      }
    }
  }

  lemma {:induction false} KeptEdge(g: State, g': State, q: nat, d: Directory)
    requires Indexed(g) && Indexed(g') && q < |g.edges| <= |g'.edges|
    requires forall k :: k in g.ixOf ==> k in g'.ixOf && g'.ixOf[k] == g.ixOf[k]
    requires DigestOf(d) in g'.ixOf && g'.edges[q].dst == g.edges[q].dst == g'.ixOf[DigestOf(d)]
    ensures DigestOf(d) in g.ixOf && g.ixOf[DigestOf(d)] == g.edges[q].dst && g.keys[g.edges[q].dst] == DigestOf(d)
  {
    var k := g.keys[g.edges[q].dst];
    assert g.ixOf[k] == g.edges[q].dst && g'.keys[g'.ixOf[k]] == k;
  }
}

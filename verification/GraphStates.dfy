/** The directory graph as a value: its invariants, and what one insertion does to it. */
module GraphStates {
  import opened Prelude
  import opened Directories

  datatype EdgeWeight = EdgeWeight(name: seq<Byte>, size: U64)

  /** An edge keeps its weight while the size it records is still unchecked. */
  datatype Edge = Edge(src: nat, dst: nat, pending: Option<EdgeWeight>)

  datatype GraphError =
    | UnknownReference
    | UnexpectedDigest
    | WrongSize
    | DisconnectedRoots
    | Incomplete
    | Panicked  // the "edge is already validated" assertion fired

  // ---------- Insertion order ----------

  datatype OrderValidator = LeavesToRoot(allowed: set<Digest>) | RootToLeaves(expected: set<Digest>)

  function ChildDigests(d: Directory): set<Digest> {
    set e | e in d.nodes && e.node.DirectoryNode? :: e.node.digest
  }

  lemma {:induction false} ChildIsReferenced(d: Directory, g: Digest)
    ensures g in ChildDigests(d) <==> References(d, g)
  {
    if g in ChildDigests(d) {
      var e :| e in d.nodes && e.node.DirectoryNode? && e.node.digest == g;
      assert PointsTo(e, g);
    }
  }

  predicate Allows(o: OrderValidator, d: Directory) {
    match o
    case LeavesToRoot(allowed) => ChildDigests(d) <= allowed
    case RootToLeaves(expected) => expected == {} || DigestOf(d) in expected
  }

  function Advance(o: OrderValidator, d: Directory): OrderValidator {
    match o
    case LeavesToRoot(allowed) => LeavesToRoot(allowed + {DigestOf(d)})
    case RootToLeaves(expected) => RootToLeaves((if expected == {} then {DigestOf(d)} else expected) + ChildDigests(d))
  }

  // ---------- The graph as a value ----------

  /** The graph's fields, with `keys` inverting the digest lookup. */
  datatype State = State(nodes: seq<Option<Directory>>, edges: seq<Edge>, ixOf: map<Digest, nat>, keys: seq<Digest>)

  ghost predicate Indexed(g: State) {
    && |g.keys| == |g.nodes|
    && (forall k :: k in g.ixOf ==> g.ixOf[k] < |g.keys| && g.keys[g.ixOf[k]] == k)
    && (forall i :: 0 <= i < |g.keys| ==> g.keys[i] in g.ixOf && g.ixOf[g.keys[i]] == i)
    && (forall i :: 0 <= i < |g.nodes| && g.nodes[i].Some? ==> DigestOf(g.nodes[i].value) == g.keys[i])
    && (forall q :: 0 <= q < |g.edges| ==> g.edges[q].src < |g.nodes| && g.edges[q].dst < |g.nodes|)
  }

  ghost predicate IsFilled(g: State, k: Digest)
    requires Indexed(g)
  {
    k in g.ixOf && g.nodes[g.ixOf[k]].Some?
  }

  /** Digests of the directories the graph holds. */
  ghost function Filled(g: State): set<Digest>
    requires Indexed(g)
  {
    set k | k in g.ixOf && IsFilled(g, k)
  }

  predicate Describes(pending: Option<EdgeWeight>, e: Entry)
    requires e.node.DirectoryNode?
  {
    pending.None? || pending.value == EdgeWeight(e.name, e.node.size)
  }

  ghost predicate HasEdgeFor(g: State, i: nat, j: nat, e: Entry)
    requires e.node.DirectoryNode?
  {
    exists q :: 0 <= q < |g.edges| && g.edges[q].src == i && g.edges[q].dst == j && Describes(g.edges[q].pending, e)
  }

  /** `e`, an entry of node `i`, has its edge, and its size is right if the child is there. */
  ghost predicate EntryWired(g: State, i: nat, e: Entry)
    requires Indexed(g) && e.node.DirectoryNode?
  {
    && e.node.digest in g.ixOf
    && HasEdgeFor(g, i, g.ixOf[e.node.digest], e)
    && (IsFilled(g, e.node.digest) ==> e.node.size == Size(e.node.digest.preimage))
  }

  /** An edge stems from an entry, and is pending exactly while its target is missing. */
  ghost predicate EdgeSound(g: State, wired: seq<seq<Entry>>, x: Edge)
    requires Indexed(g) && |wired| == |g.nodes| && x.src < |g.nodes| && x.dst < |g.nodes|
  {
    && (x.pending.Some? <==> g.nodes[x.dst].None?)
    && exists e :: e in wired[x.src] && PointsTo(e, g.keys[x.dst]) && Describes(x.pending, e)
  }

  /** `wired[i]` lists the entries of node `i` that have been turned into edges. */
  ghost predicate Wired(g: State, wired: seq<seq<Entry>>) {
    && Indexed(g) && |wired| == |g.nodes|
    && (forall q :: 0 <= q < |g.edges| ==> EdgeSound(g, wired, g.edges[q]))
    && (forall i, e :: 0 <= i < |wired| && e in wired[i] && e.node.DirectoryNode? ==> EntryWired(g, i, e))
  }

  ghost function EntriesAt(n: Option<Directory>): seq<Entry> {
    if n.Some? then n.value.nodes else []
  }

  ghost function Owned(g: State): seq<seq<Entry>> {
    seq(|g.nodes|, i requires 0 <= i < |g.nodes| => EntriesAt(g.nodes[i]))
  }

  ghost predicate HasIncoming(edges: seq<Edge>, i: nat) {
    exists q :: 0 <= q < |edges| && edges[q].dst == i
  }

  /** What holds as long as no insertion failed. */
  ghost predicate Clean(g: State) {
    && Wired(g, Owned(g))
    && forall i :: 0 <= i < |g.nodes| && g.nodes[i].None? ==> HasIncoming(g.edges, i)
  }

  // ---------- What insertion does to the value ----------

  ghost function WithNode(g: State, k: Digest): State {
    if k in g.ixOf then g else State(g.nodes + [None], g.edges, g.ixOf[k := |g.nodes|], g.keys + [k])
  }

  ghost function WithRow(wired: seq<seq<Entry>>, g: State, k: Digest): seq<seq<Entry>> {
    if k in g.ixOf then wired else wired + [[]]
  }

  lemma {:induction false} NodeKeepsEdge(g: State, wired: seq<seq<Entry>>, k: Digest, q: nat)
    requires Wired(g, wired) && k !in g.ixOf && q < |g.edges|
    ensures Indexed(WithNode(g, k)) && EdgeSound(WithNode(g, k), WithRow(wired, g, k), g.edges[q])
  {
    assert EdgeSound(g, wired, g.edges[q]);
  }

  lemma {:induction false} NodeKeepsEntry(g: State, wired: seq<seq<Entry>>, k: Digest, i: nat, e: Entry)
    requires Wired(g, wired) && k !in g.ixOf && i < |wired| && e in wired[i] && e.node.DirectoryNode?
    ensures Indexed(WithNode(g, k)) && EntryWired(WithNode(g, k), i, e)
  {
    var g' := WithNode(g, k);
    assert EntryWired(g, i, e);
    var j := g.ixOf[e.node.digest];
    assert HasEdgeFor(g, i, j, e);
    assert HasEdgeFor(g', i, j, e);
  }

  lemma {:induction false} NodeKeepsWired(g: State, wired: seq<seq<Entry>>, k: Digest)
    requires Wired(g, wired)
    ensures Wired(WithNode(g, k), WithRow(wired, g, k))
    ensures Filled(WithNode(g, k)) == Filled(g)
  {
    hide EdgeSound, EntryWired;
    var g', wired' := WithNode(g, k), WithRow(wired, g, k);
    if k !in g.ixOf {
      assert Indexed(g') && Filled(g') == Filled(g);
      hide Indexed, Filled;
      forall q | 0 <= q < |g'.edges| ensures EdgeSound(g', wired', g'.edges[q]) {
        NodeKeepsEdge(g, wired, k, q);
      }
      forall i, e: Entry | 0 <= i < |wired'| && e in wired'[i] && e.node.DirectoryNode? ensures EntryWired(g', i, e) {
        NodeKeepsEntry(g, wired, k, i, e);
      }
    }
  }

  /** The edge the first loop adds for entry `e` of the node at `ix`. */
  ghost function EdgeFor(g: State, ix: nat, e: Entry): Edge
    requires Indexed(g) && e.node.DirectoryNode? && e.node.digest in g.ixOf
  {
    var j := g.ixOf[e.node.digest];
    Edge(ix, j, if g.nodes[j].Some? then None else Some(EdgeWeight(e.name, e.node.size)))
  }

  /** A further entry of node `ix` leaves the edges that were there as they are. */
  lemma {:induction false} RowKeepsEdge(g: State, wired: seq<seq<Entry>>, ix: nat, e: Entry, q: nat, g': State)
    requires Wired(g, wired) && ix < |g.nodes| && q < |g.edges| && Indexed(g') && g'.nodes == g.nodes
    requires g'.keys == g.keys
    ensures EdgeSound(g', wired[ix := wired[ix] + [e]], g.edges[q])
  {
    var x, wired' := g.edges[q], wired[ix := wired[ix] + [e]];
    assert EdgeSound(g, wired, x);
    var e0 :| e0 in wired[x.src] && PointsTo(e0, g.keys[x.dst]) && Describes(x.pending, e0);
    assert e0 in wired'[x.src];
  }

  lemma {:induction false} EdgeKeepsEntry(g: State, wired: seq<seq<Entry>>, i: nat, e: Entry, g': State)
    requires Wired(g, wired) && i < |wired| && e in wired[i] && e.node.DirectoryNode?
    requires Indexed(g') && g'.nodes == g.nodes && g'.ixOf == g.ixOf && g.edges <= g'.edges
    ensures EntryWired(g', i, e)
  {
    assert EntryWired(g, i, e);
    var j := g.ixOf[e.node.digest];
    assert HasEdgeFor(g, i, j, e);
    assert HasEdgeFor(g', i, j, e);
  }

  lemma {:induction false} EdgeKeepsWired(g: State, wired: seq<seq<Entry>>, ix: nat, e: Entry)
    requires Wired(g, wired) && ix < |g.nodes| && e.node.DirectoryNode? && e.node.digest in g.ixOf
    requires IsFilled(g, e.node.digest) ==> e.node.size == Size(e.node.digest.preimage)
    ensures Wired(g.(edges := g.edges + [EdgeFor(g, ix, e)]), wired[ix := wired[ix] + [e]])
  {
    hide Size;
    var x := EdgeFor(g, ix, e);
    var g', wired' := g.(edges := g.edges + [x]), wired[ix := wired[ix] + [e]];
    assert Indexed(g');
    assert EdgeSound(g', wired', x) by {
      assert e in wired'[ix] && PointsTo(e, g.keys[x.dst]);
    }
    assert EntryWired(g', ix, e) by {
      assert g'.edges[|g.edges|] == x;
    }
    hide EdgeSound, EntryWired, Indexed;
    forall q | 0 <= q < |g'.edges| ensures EdgeSound(g', wired', g'.edges[q]) {
      if q < |g.edges| { RowKeepsEdge(g, wired, ix, e, q, g'); }
    }
    forall i, e1: Entry | 0 <= i < |wired'| && e1 in wired'[i] && e1.node.DirectoryNode? ensures EntryWired(g', i, e1) {
      if e1 in wired[i] { EdgeKeepsEntry(g, wired, i, e1, g'); }
    }
  }

  lemma {:induction false} SkipKeepsWired(g: State, wired: seq<seq<Entry>>, ix: nat, e: Entry)
    requires Wired(g, wired) && ix < |g.nodes| && !e.node.DirectoryNode?
    ensures Wired(g, wired[ix := wired[ix] + [e]])
  {
    var wired' := wired[ix := wired[ix] + [e]];
    forall q | 0 <= q < |g.edges| ensures EdgeSound(g, wired', g.edges[q]) {
      assert EdgeSound(g, wired, g.edges[q]);
      var x := g.edges[q];
      var e0 :| e0 in wired[x.src] && PointsTo(e0, g.keys[x.dst]) && Describes(x.pending, e0);
      assert e0 in wired'[g.edges[q].src];
    }
  }

  /** The edges once those from position `n` on that lead to `ix` have had their weight taken. */
  function Settled(edges: seq<Edge>, ix: nat, n: nat): (r: seq<Edge>)
    ensures |r| == |edges|
  {
    seq(|edges|, q requires 0 <= q < |edges| =>
      if q >= n && edges[q].dst == ix then edges[q].(pending := None) else edges[q])
  }

  ghost function Fill(g: State, ix: nat, d: Directory): State
    requires ix < |g.nodes|
  {
    g.(nodes := g.nodes[ix := Some(d)], edges := Settled(g.edges, ix, 0))
  }

  ghost predicate PendingAgree(edges: seq<Edge>, ix: nat, d: Directory) {
    forall q :: 0 <= q < |edges| && edges[q].dst == ix ==>
      edges[q].pending.Some? && edges[q].pending.value.size == Size(d)
  }

  /** Node `ix` has all entries of `d` wired, and every edge that waits for it recorded its size. */
  ghost predicate ReadyToFill(g: State, ix: nat, d: Directory) {
    && ix < |g.nodes| && Wired(g, Owned(g)[ix := d.nodes])
    && g.nodes[ix].None? && g.keys[ix] == DigestOf(d) && PendingAgree(g.edges, ix, d)
  }

  lemma {:induction false} FillIndexed(g: State, ix: nat, d: Directory)
    requires Indexed(g) && ix < |g.nodes| && g.nodes[ix].None? && g.keys[ix] == DigestOf(d)
    ensures Indexed(Fill(g, ix, d)) && Owned(Fill(g, ix, d)) == Owned(g)[ix := d.nodes]
    ensures Filled(Fill(g, ix, d)) == Filled(g) + {DigestOf(d)}
  {
    var g' := Fill(g, ix, d);
    assert Indexed(g');
    forall k | k in g.ixOf ensures IsFilled(g', k) <==> IsFilled(g, k) || k == DigestOf(d) {
    }
  }

  lemma {:induction false} FillKeepsEntry(g: State, ix: nat, d: Directory, i: nat, e: Entry)
    requires ReadyToFill(g, ix, d) && i < |g.nodes| && e.node.DirectoryNode? && EntryWired(g, i, e)
    ensures Indexed(Fill(g, ix, d)) && EntryWired(Fill(g, ix, d), i, e)
  {
    FillIndexed(g, ix, d);
    var g', j := Fill(g, ix, d), g.ixOf[e.node.digest];
    var q :| 0 <= q < |g.edges| && g.edges[q].src == i && g.edges[q].dst == j && Describes(g.edges[q].pending, e);
    assert g'.edges[q].src == i && g'.edges[q].dst == j && Describes(g'.edges[q].pending, e);
  }

  lemma {:induction false} FillKeepsEdge(g: State, ix: nat, d: Directory, q: nat)
    requires ReadyToFill(g, ix, d) && q < |g.edges|
    ensures Indexed(Fill(g, ix, d)) && EdgeSound(Fill(g, ix, d), Owned(g)[ix := d.nodes], Fill(g, ix, d).edges[q])
  {
    FillIndexed(g, ix, d);
    assert EdgeSound(g, Owned(g)[ix := d.nodes], g.edges[q]);
  }

  lemma {:induction false} FillIsClean(g: State, ix: nat, d: Directory)
    requires ReadyToFill(g, ix, d)
    requires forall i :: 0 <= i < |g.nodes| && i != ix && g.nodes[i].None? ==> HasIncoming(g.edges, i)
    ensures Clean(Fill(g, ix, d)) && Filled(Fill(g, ix, d)) == Filled(g) + {DigestOf(d)}
  {
    hide EdgeSound, EntryWired, IsFilled;
    FillIndexed(g, ix, d);
    var g', w := Fill(g, ix, d), Owned(g)[ix := d.nodes];
    forall q | 0 <= q < |g'.edges| ensures EdgeSound(g', w, g'.edges[q]) {
      FillKeepsEdge(g, ix, d, q);
    }
    forall i, e: Entry | 0 <= i < |w| && e in w[i] && e.node.DirectoryNode? ensures EntryWired(g', i, e) {
      FillKeepsEntry(g, ix, d, i, e);
    }
    forall i | 0 <= i < |g'.nodes| && g'.nodes[i].None? ensures HasIncoming(g'.edges, i) {
      var q :| 0 <= q < |g.edges| && g.edges[q].dst == i;
      assert g'.edges[q].dst == i;
    }
  }

  /** The second loop, from the latest edge back, stops at `q`: its weight was taken before, or recorded another
      size. */
  ghost predicate SettleFailsAt(edges: seq<Edge>, ix: nat, d: Directory, q: nat, error: GraphError) {
    && q < |edges| && edges[q].dst == ix && PendingAgree(edges[q + 1..], ix, d)
    && if edges[q].pending.None? then error == Panicked
       else error == WrongSize && edges[q].pending.value.size != Size(d)
  }

  // ---------- When insertion succeeds, and what a failure leaves behind ----------

  ghost predicate ChildrenAgree(d: Directory, filled: set<Digest>) {
    forall e :: e in d.nodes && e.node.DirectoryNode? && e.node.digest in filled ==>
      e.node.digest.Blake3? && e.node.size == Size(e.node.digest.preimage)
  }

  ghost predicate ParentsAgree(d: Directory, filled: set<Digest>) {
    forall p, e :: p in filled && p.Blake3? && e in p.preimage.nodes && PointsTo(e, DigestOf(d)) ==>
      e.node.size == Size(d)
  }

  /** Every size recorded between `d` and the directories in `filled`, either way round, is right. */
  ghost predicate SizesAgree(d: Directory, filled: set<Digest>) {
    ChildrenAgree(d, filled) && ParentsAgree(d, filled)
  }

  /** An entry of `d` that contradicts a directory already present. */
  ghost predicate Contradicted(g: State, d: Directory)
    requires Indexed(g)
  {
    exists e :: e in d.nodes && e.node.DirectoryNode? && IsFilled(g, e.node.digest)
      && e.node.size != Size(e.node.digest.preimage)
  }

  ghost predicate SizeJam(g: State, i: nat)
    requires Indexed(g) && i < |g.nodes|
  {
    g.keys[i].Blake3? && Contradicted(g, g.keys[i].preimage)
  }

  ghost predicate EdgeJam(g: State, i: nat) {
    exists q :: 0 <= q < |g.edges| && g.edges[q].dst == i && g.edges[q].pending.None?
  }

  /** A node that no later insertion can fill. */
  ghost predicate Jammed(g: State, i: nat) {
    Indexed(g) && i < |g.nodes| && g.nodes[i].None? && (SizeJam(g, i) || EdgeJam(g, i))
  }

  ghost predicate SomeJam(g: State) {
    exists i :: Jammed(g, i)
  }

  /** Insertion only adds: nodes and edges stay, weights are only taken, and at most `ix` is filled. */
  ghost predicate Grows(g: State, g': State, ix: nat) {
    && Indexed(g) && Indexed(g')
    && g.keys <= g'.keys
    && |g.edges| <= |g'.edges|
    && (forall q :: 0 <= q < |g.edges| ==>
          g'.edges[q].dst == g.edges[q].dst && (g.edges[q].pending.None? ==> g'.edges[q].pending.None?))
    && (forall i :: 0 <= i < |g.nodes| && (i != ix || g.nodes[i].Some?) ==> g'.nodes[i] == g.nodes[i])
  }

  lemma {:induction false} GrowthKeepsFilled(g: State, g': State, ix: nat)
    requires Grows(g, g', ix)
    ensures forall k :: k in g.ixOf ==> k in g'.ixOf && g'.ixOf[k] == g.ixOf[k]
    ensures forall k :: IsFilled(g, k) ==> IsFilled(g', k)
  {
    forall k | k in g.ixOf ensures k in g'.ixOf && g'.ixOf[k] == g.ixOf[k] {
      assert g'.keys[g.ixOf[k]] == k;
    }
  }

  lemma {:induction false} JamPersists(g: State, g': State, ix: nat, i: nat)
    requires Grows(g, g', ix) && Jammed(g, i) && (i == ix ==> g'.nodes[i].None?)
    ensures Jammed(g', i)
  {
    GrowthKeepsFilled(g, g', ix);
    if SizeJam(g, i) {
      var d := g.keys[i].preimage;
      var e :| e in d.nodes && e.node.DirectoryNode? && IsFilled(g, e.node.digest)
        && e.node.size != Size(e.node.digest.preimage);
      assert IsFilled(g', e.node.digest);
      assert SizeJam(g', i);
    } else {
      var q :| 0 <= q < |g.edges| && g.edges[q].dst == i && g.edges[q].pending.None?;
      assert g'.edges[q].dst == i && g'.edges[q].pending.None?;
    }
  }

  /** In leaves-to-root order, over any insertions: only jammed nodes are empty. */
  ghost predicate OnlySizeJams(g: State) {
    Indexed(g) && forall i :: 0 <= i < |g.nodes| && g.nodes[i].None? ==> SizeJam(g, i)
  }

  /** Exactly when inserting `d` fires the assertion that an edge still has its weight. */
  ghost predicate Panics(g: State, d: Directory)
    requires Indexed(g)
  {
    && DigestOf(d) in g.ixOf && !IsFilled(g, DigestOf(d)) && !Contradicted(g, d)
    && exists q: nat :: SettleFailsAt(g.edges, g.ixOf[DigestOf(d)], d, q, Panicked)
  }

  ghost predicate Accepts(g: State, d: Directory)
    requires Indexed(g)
  {
    DigestOf(d) in Filled(g) || SizesAgree(d, Filled(g))
  }

  ghost predicate JamsStay(g: State, g': State) {
    forall i :: Jammed(g, i) ==> Jammed(g', i)
  }

  ghost predicate CleanRule(g: State, d: Directory, r: Result<(), GraphError>, g': State)
    requires Indexed(g) && Indexed(g')
  {
    && (Accepts(g, d) ==> r.Ok? && Clean(g') && Filled(g') == Filled(g) + {DigestOf(d)})
    && (!Accepts(g, d) ==> r == Err(WrongSize) && SomeJam(g') && (Contradicted(g, d) || Panics(g', d)))
  }

  ghost predicate LeavesRule(g: State, d: Directory, r: Result<(), GraphError>, g': State)
    requires Indexed(g) && Indexed(g')
  {
    r != Err(Panicked) && OnlySizeJams(g') && g'.ixOf.Keys == g.ixOf.Keys + {DigestOf(d)}
  }

  /** What inserting `d` does, from a graph in any state. */
  ghost predicate AddOutcome(g: State, d: Directory, r: Result<(), GraphError>, g': State)
    requires Indexed(g)
  {
    && Indexed(g')
    && (r == Err(Panicked) <==> Panics(g, d))
    && JamsStay(g, g')
    && (Clean(g) ==> CleanRule(g, d, r, g'))
    && (OnlySizeJams(g) && ChildDigests(d) <= g.ixOf.Keys ==> LeavesRule(g, d, r, g'))
  }

  /** Node `ix` is being inserted, with the first `k` entries of `d` wired so far. */
  ghost predicate Inserting(g: State, ix: nat, d: Directory, k: nat) {
    && ix < |g.nodes| && k <= |d.nodes| && g.nodes[ix].None?
    && Wired(g, Owned(g)[ix := d.nodes[..k]])
    && forall i :: 0 <= i < |g.nodes| && i != ix && g.nodes[i].None? ==> HasIncoming(g.edges, i)
  }

  lemma {:induction false} StartInserting(g: State, d: Directory)
    requires Clean(g) && !IsFilled(g, DigestOf(d))
    ensures var g' := WithNode(g, DigestOf(d));
      Indexed(g') && Inserting(g', g'.ixOf[DigestOf(d)], d, 0) && Filled(g') == Filled(g)
  {
    var k := DigestOf(d);
    var g' := WithNode(g, k);
    NodeKeepsWired(g, Owned(g), k);
    assert Owned(g') == WithRow(Owned(g), g, k);
    assert Owned(g')[g'.ixOf[k] := d.nodes[..0]] == Owned(g');
  }

  lemma {:induction false} InsertEntry(g: State, ix: nat, d: Directory, k: nat)
    requires Inserting(g, ix, d, k) && k < |d.nodes| && d.nodes[k].node.DirectoryNode?
    requires var c := d.nodes[k].node.digest;
      IsFilled(g, c) ==> d.nodes[k].node.size == Size(c.preimage)
    ensures var e := d.nodes[k]; var g1 := WithNode(g, e.node.digest);
      Indexed(g1) && Inserting(g1.(edges := g1.edges + [EdgeFor(g1, ix, e)]), ix, d, k + 1)
  {
    hide EdgeSound, EntryWired;
    var e, w := d.nodes[k], Owned(g)[ix := d.nodes[..k]];
    var g1 := WithNode(g, e.node.digest);
    NodeKeepsWired(g, w, e.node.digest);
    var w1 := WithRow(w, g, e.node.digest);
    assert w1 == Owned(g1)[ix := d.nodes[..k]];
    EdgeKeepsWired(g1, w1, ix, e);
    var g2 := g1.(edges := g1.edges + [EdgeFor(g1, ix, e)]);
    assert d.nodes[..k + 1] == d.nodes[..k] + [e];
    assert w1[ix := w1[ix] + [e]] == Owned(g2)[ix := d.nodes[..k + 1]];
    forall i | 0 <= i < |g2.nodes| && i != ix && g2.nodes[i].None? ensures HasIncoming(g2.edges, i) {
      if i < |g.nodes| {
        var q :| 0 <= q < |g.edges| && g.edges[q].dst == i;
        assert g2.edges[q].dst == i;
      } else {
        assert g2.edges[|g1.edges|].dst == i;
      }
    }
  }

  lemma {:induction false} InsertOther(g: State, ix: nat, d: Directory, k: nat)
    requires Inserting(g, ix, d, k) && k < |d.nodes| && !d.nodes[k].node.DirectoryNode?
    ensures Inserting(g, ix, d, k + 1)
  {
    var w := Owned(g)[ix := d.nodes[..k]];
    SkipKeepsWired(g, w, ix, d.nodes[k]);
    assert d.nodes[..k + 1] == d.nodes[..k] + [d.nodes[k]];
    assert w[ix := w[ix] + [d.nodes[k]]] == Owned(g)[ix := d.nodes[..k + 1]];
  }

  ghost predicate AgreesUpTo(g: State, d: Directory, k: nat)
    requires Indexed(g) && k <= |d.nodes|
  {
    forall m :: 0 <= m < k && d.nodes[m].node.DirectoryNode? && IsFilled(g, d.nodes[m].node.digest) ==>
      d.nodes[m].node.size == Size(d.nodes[m].node.digest.preimage)
  }

  /** The first loop after `k` entries, started from any indexed graph, clean or not. */
  ghost predicate Wiring(g0: State, g: State, ix: nat, d: Directory, k: nat) {
    && WiringBase(g0, g, ix, d, k)
    && (Inserting(g0, ix, d, 0) ==> Inserting(g, ix, d, k))
  }

  ghost predicate WiringBase(g0: State, g: State, ix: nat, d: Directory, k: nat) {
    && Grows(g0, g, ix) && ix < |g0.nodes| && g.nodes[ix] == g0.nodes[ix] && g0.keys[ix] == DigestOf(d)
    && Filled(g) == Filled(g0)
    && k <= |d.nodes| && AgreesUpTo(g0, d, k)
    && (ChildDigests(d) <= g0.ixOf.Keys ==> g.ixOf == g0.ixOf)
    && g0.edges <= g.edges && (forall q :: |g0.edges| <= q < |g.edges| ==> g.edges[q].dst != ix)
  }

  lemma {:induction false} AgreesNext(g: State, d: Directory, k: nat)
    requires Indexed(g) && k < |d.nodes| && AgreesUpTo(g, d, k)
    requires var e := d.nodes[k];
      e.node.DirectoryNode? && IsFilled(g, e.node.digest) ==> e.node.size == Size(e.node.digest.preimage)
    ensures AgreesUpTo(g, d, k + 1)
  {
  }

  lemma {:induction false} FilledMember(g: State, k: Digest)
    requires Indexed(g)
    ensures k in Filled(g) <==> IsFilled(g, k)
  {
  }

  lemma {:induction false} NodeGrows(g0: State, g: State, ix: nat, k: Digest)
    requires Grows(g0, g, ix) && ix < |g0.nodes| && g.nodes[ix] == g0.nodes[ix] && Filled(g) == Filled(g0)
    ensures Indexed(WithNode(g, k)) && Grows(g0, WithNode(g, k), ix)
    ensures WithNode(g, k).nodes[ix] == g0.nodes[ix] && Filled(WithNode(g, k)) == Filled(g0)
  {
    NodeIndexed(g, k);
    hide Indexed, Filled;
  }

  lemma {:induction false} NodeIndexed(g: State, k: Digest)
    requires Indexed(g)
    ensures Indexed(WithNode(g, k)) && Filled(WithNode(g, k)) == Filled(g)
    ensures |g.nodes| == |g.keys| <= |WithNode(g, k).keys| && g.keys <= WithNode(g, k).keys
  {
  }

  lemma {:induction false} EdgeGrows(g0: State, g: State, ix: nat, x: Edge)
    requires Grows(g0, g, ix) && x.src < |g.nodes| && x.dst < |g.nodes|
    ensures Grows(g0, g.(edges := g.edges + [x]), ix) && Filled(g.(edges := g.edges + [x])) == Filled(g)
  {
    var g' := g.(edges := g.edges + [x]);
    assert Indexed(g');
    assert Filled(g') == Filled(g);
  }

  lemma {:induction false} WiringGrows(g0: State, g: State, ix: nat, e: Entry)
    requires Grows(g0, g, ix) && ix < |g0.nodes| && g.nodes[ix] == g0.nodes[ix] && e.node.DirectoryNode?
    requires Filled(g) == Filled(g0)
    ensures Indexed(WithNode(g, e.node.digest))
    ensures var g1 := WithNode(g, e.node.digest);
      var g2 := g1.(edges := g1.edges + [EdgeFor(g1, ix, e)]);
      && Grows(g0, g2, ix) && g2.nodes[ix] == g0.nodes[ix] && Filled(g2) == Filled(g0)
      && (e.node.digest != g0.keys[ix] ==> EdgeFor(g1, ix, e).dst != ix)
  {
    hide Filled;
    var k := e.node.digest;
    var g1 := WithNode(g, k);
    NodeGrows(g0, g, ix, k);
    EdgeGrows(g0, g1, ix, EdgeFor(g1, ix, e));
  }

  lemma {:induction false} WiringBaseEdge(g0: State, g: State, ix: nat, d: Directory, k: nat)
    requires WiringBase(g0, g, ix, d, k) && k < |d.nodes| && d.nodes[k].node.DirectoryNode?
    requires var c := d.nodes[k].node.digest; IsFilled(g, c) ==> d.nodes[k].node.size == Size(c.preimage)
    ensures var e := d.nodes[k]; var g1 := WithNode(g, e.node.digest);
      Indexed(g1) && WiringBase(g0, g1.(edges := g1.edges + [EdgeFor(g1, ix, e)]), ix, d, k + 1)
  {
    var e := d.nodes[k];
    var c := e.node.digest;
    hide IsFilled, Filled, Grows, EdgeFor, Size, AgreesUpTo, Indexed;
    WiringGrows(g0, g, ix, e);
    FilledMember(g, c);
    FilledMember(g0, c);
    AgreesNext(g0, d, k);
    assert PointsTo(e, c) && ParentOf(DigestOf(d), c);
    ChildIsSmaller(DigestOf(d), c);
    assert c in ChildDigests(d);
  }

  lemma {:induction false} WiringEdge(g0: State, g: State, ix: nat, d: Directory, k: nat)
    requires Wiring(g0, g, ix, d, k) && k < |d.nodes| && d.nodes[k].node.DirectoryNode?
    requires Indexed(g)
    requires var c := d.nodes[k].node.digest; IsFilled(g, c) ==> d.nodes[k].node.size == Size(c.preimage)
    ensures var e := d.nodes[k]; var g1 := WithNode(g, e.node.digest);
      Indexed(g1) && Wiring(g0, g1.(edges := g1.edges + [EdgeFor(g1, ix, e)]), ix, d, k + 1)
  {
    hide WiringBase, Inserting, IsFilled, EdgeFor, Size, Indexed;
    WiringBaseEdge(g0, g, ix, d, k);
    if Inserting(g0, ix, d, 0) {
      InsertEntry(g, ix, d, k);
    }
  }

  lemma {:induction false} WiringSkip(g0: State, g: State, ix: nat, d: Directory, k: nat)
    requires Wiring(g0, g, ix, d, k) && k < |d.nodes| && !d.nodes[k].node.DirectoryNode?
    ensures Wiring(g0, g, ix, d, k + 1)
  {
    if Inserting(g0, ix, d, 0) {
      InsertOther(g, ix, d, k);
    }
  }

  lemma {:induction false} WiringFails(g0: State, g: State, ix: nat, d: Directory, k: nat)
    requires Wiring(g0, g, ix, d, k) && k < |d.nodes| && d.nodes[k].node.DirectoryNode?
    requires var c := d.nodes[k].node.digest; IsFilled(g, c) && d.nodes[k].node.size != Size(c.preimage)
    ensures Contradicted(g0, d) && d.nodes[k].node.digest in Filled(g0)
  {
    FilledMember(g, d.nodes[k].node.digest);
    FilledMember(g0, d.nodes[k].node.digest);
  }

  lemma {:induction false} ContradictedBySizes(g: State, d: Directory)
    requires Indexed(g)
    ensures Contradicted(g, d) <==> !ChildrenAgree(d, Filled(g))
  {
    if !ChildrenAgree(d, Filled(g)) {
      var e :| e in d.nodes && e.node.DirectoryNode? && e.node.digest in Filled(g)
        && !(e.node.digest.Blake3? && e.node.size == Size(e.node.digest.preimage));
      assert IsFilled(g, e.node.digest);
    }
  }

  lemma {:induction false} OwnedBy(g: State, p: Digest)
    requires Indexed(g) && IsFilled(g, p)
    ensures p.Blake3? && Owned(g)[g.ixOf[p]] == p.preimage.nodes
  {
  }

  /** In a clean graph the waiting edges speak for all the entries that point at `d`. */
  lemma {:induction false} WaitingEdges(g: State, d: Directory)
    requires Clean(g) && !IsFilled(g, DigestOf(d))
    ensures DigestOf(d) !in g.ixOf ==> ParentsAgree(d, Filled(g))
    ensures DigestOf(d) in g.ixOf ==> (PendingAgree(g.edges, g.ixOf[DigestOf(d)], d) <==> ParentsAgree(d, Filled(g)))
  {
    var k, w := DigestOf(d), Owned(g);
    hide Size;
    forall p, e | p in Filled(g) && p.Blake3? && e in p.preimage.nodes && PointsTo(e, k)
      ensures k in g.ixOf && (PendingAgree(g.edges, g.ixOf[k], d) ==> e.node.size == Size(d))
    {
      OwnedBy(g, p);
      assert EntryWired(g, g.ixOf[p], e);
      var q :| 0 <= q < |g.edges| && g.edges[q].src == g.ixOf[p] && g.edges[q].dst == g.ixOf[k]
        && Describes(g.edges[q].pending, e);
      assert EdgeSound(g, w, g.edges[q]);
    }
    if k in g.ixOf && ParentsAgree(d, Filled(g)) {
      forall q | 0 <= q < |g.edges| && g.edges[q].dst == g.ixOf[k]
        ensures g.edges[q].pending.Some? && g.edges[q].pending.value.size == Size(d)
      {
        WaitingEdge(g, d, q);
      }
    }
  }

  lemma {:induction false} WaitingEdge(g: State, d: Directory, q: nat)
    requires Clean(g) && !IsFilled(g, DigestOf(d)) && ParentsAgree(d, Filled(g))
    requires q < |g.edges| && DigestOf(d) in g.ixOf && g.edges[q].dst == g.ixOf[DigestOf(d)]
    ensures g.edges[q].pending.Some? && g.edges[q].pending.value.size == Size(d)
  {
    hide Size;
    assert EdgeSound(g, Owned(g), g.edges[q]);
    var e :| e in Owned(g)[g.edges[q].src] && PointsTo(e, g.keys[g.edges[q].dst]) && Describes(g.edges[q].pending, e);
    var p := g.keys[g.edges[q].src];
    assert IsFilled(g, p);
    OwnedBy(g, p);
    FilledMember(g, p);
  }

  lemma {:induction false} AddPresent(g: State, d: Directory)
    requires Indexed(g) && IsFilled(g, DigestOf(d))
    ensures AddOutcome(g, d, Ok(()), g)
  {
    FilledMember(g, DigestOf(d));
  }

  lemma {:induction false} SameLookup(a: State, b: State)
    requires Indexed(a) && Indexed(b) && a.ixOf == b.ixOf
    ensures |a.nodes| <= |b.nodes|
  {
    if |a.nodes| > 0 {
      assert a.keys[|a.nodes| - 1] in b.ixOf;
    }
  }

  /** A new node for `d`, then `k` of its entries wired: nothing that was filled or jammed changes. */
  lemma {:induction false} WiredFrom(g: State, d: Directory, g2: State, k: nat)
    requires Indexed(g) && Indexed(WithNode(g, DigestOf(d))) && !IsFilled(g, DigestOf(d))
    requires var g1 := WithNode(g, DigestOf(d)); Wiring(g1, g2, g1.ixOf[DigestOf(d)], d, k)
    ensures var g1 := WithNode(g, DigestOf(d)); var ix := g1.ixOf[DigestOf(d)];
      && Grows(g, g2, ix) && ix < |g2.nodes| && g2.nodes[ix].None? && g2.keys[ix] == DigestOf(d)
      && Filled(g1) == Filled(g) == Filled(g2)
      && (Contradicted(g2, d) <==> Contradicted(g, d)) && (Contradicted(g1, d) <==> Contradicted(g, d))
      && g.edges <= g2.edges && (forall q :: |g.edges| <= q < |g2.edges| ==> g2.edges[q].dst != ix)
      && (ChildDigests(d) <= g.ixOf.Keys ==> g2.ixOf.Keys == g.ixOf.Keys + {DigestOf(d)} && |g2.nodes| == |g1.nodes|)
  {
    hide Inserting, AgreesUpTo, Size;
    var g1 := WithNode(g, DigestOf(d));
    assert Filled(g1) == Filled(g);
    ContradictedBySizes(g, d);
    ContradictedBySizes(g1, d);
    ContradictedBySizes(g2, d);
    if ChildDigests(d) <= g.ixOf.Keys {
      assert g2.ixOf == g1.ixOf;
      SameLookup(g1, g2);
      SameLookup(g2, g1);
    }
  }

  lemma {:induction false} SizeJamsPersist(g: State, g': State, ix: nat)
    requires Grows(g, g', ix) && OnlySizeJams(g)
    ensures forall i :: 0 <= i < |g.nodes| && i != ix && g'.nodes[i].None? ==> SizeJam(g', i)
  {
    GrowthKeepsFilled(g, g', ix);
    forall i | 0 <= i < |g.nodes| && i != ix && g'.nodes[i].None? ensures SizeJam(g', i) {
      var d := g.keys[i].preimage;
      var e :| e in d.nodes && e.node.DirectoryNode? && IsFilled(g, e.node.digest)
        && e.node.size != Size(e.node.digest.preimage);
      assert IsFilled(g', e.node.digest);
    }
  }

  lemma {:induction false} JamsPersist(g: State, g': State, ix: nat)
    requires Grows(g, g', ix) && (Jammed(g, ix) ==> g'.nodes[ix].None?)
    ensures JamsStay(g, g')
  {
    hide Jammed, Grows;
    forall i | Jammed(g, i) ensures Jammed(g', i) {
      JamPersists(g, g', ix, i);
    }
  }

  lemma {:induction false} AddContradicted(g: State, d: Directory, g': State, k: nat)
    requires Indexed(g) && Indexed(WithNode(g, DigestOf(d))) && !IsFilled(g, DigestOf(d))
    requires var g1 := WithNode(g, DigestOf(d)); Wiring(g1, g', g1.ixOf[DigestOf(d)], d, k) && Contradicted(g1, d)
    ensures AddOutcome(g, d, Err(WrongSize), g')
  {
    hide Wiring, Clean, Contradicted, ChildrenAgree, ParentsAgree, Filled, IsFilled;
    var g1 := WithNode(g, DigestOf(d));
    var ix := g1.ixOf[DigestOf(d)];
    WiredFrom(g, d, g', k);
    ContradictedBySizes(g, d);
    FilledMember(g, DigestOf(d));
    JamsPersist(g, g', ix);
    assert SizeJam(g', ix);
    assert Jammed(g', ix);
    if OnlySizeJams(g) && ChildDigests(d) <= g.ixOf.Keys {
      SizeJamsPersist(g, g', ix);
    }
  }

  lemma {:induction false} LastIncoming(edges: seq<Edge>, ix: nat, q: nat) returns (m: nat)
    requires q < |edges| && edges[q].dst == ix
    ensures q <= m < |edges| && edges[m].dst == ix && forall l :: m < l < |edges| ==> edges[l].dst != ix
    decreases |edges| - q
  {
    m := q;
    if l :| q < l < |edges| && edges[l].dst == ix {
      m := LastIncoming(edges, ix, l);
    }
  }

  lemma {:induction false} PendingAgreesLonger(edges: seq<Edge>, more: seq<Edge>, ix: nat, d: Directory, lo: nat)
    requires edges <= more && lo <= |edges| && forall l :: |edges| <= l < |more| ==> more[l].dst != ix
    ensures PendingAgree(edges[lo..], ix, d) <==> PendingAgree(more[lo..], ix, d)
  {
    forall l | 0 <= l < |edges| - lo ensures edges[lo..][l] == more[lo..][l] {
    }
    forall l | |edges| - lo <= l < |more| - lo ensures more[lo..][l].dst != ix {
      assert more[lo..][l] == more[lo + l];
    }
  }

  lemma {:induction false} SettleAgrees(edges: seq<Edge>, more: seq<Edge>, ix: nat, d: Directory, q: nat,
        error: GraphError)
    requires edges <= more && forall l :: |edges| <= l < |more| ==> more[l].dst != ix
    ensures SettleFailsAt(edges, ix, d, q, error) <==> SettleFailsAt(more, ix, d, q, error)
    ensures PendingAgree(edges, ix, d) <==> PendingAgree(more, ix, d)
  {
    hide PendingAgree;
    PendingAgreesLonger(edges, more, ix, d, 0);
    assert edges[0..] == edges && more[0..] == more;
    if q < |edges| {
      assert edges[q] == more[q];
      PendingAgreesLonger(edges, more, ix, d, q + 1);
    }
  }

  lemma {:induction false} LaterAgrees(edges: seq<Edge>, ix: nat, d: Directory, q: nat, l: nat)
    ensures q < l < |edges| && PendingAgree(edges[q + 1..], ix, d) && edges[l].dst == ix ==>
      edges[l].pending.Some? && edges[l].pending.value.size == Size(d)
  {
    if q < l < |edges| {
      assert edges[q + 1..][l - q - 1] == edges[l];
    }
  }

  lemma {:induction false} SettleOnce(edges: seq<Edge>, ix: nat, d: Directory, q: nat, error: GraphError, q': nat,
        error': GraphError)
    requires SettleFailsAt(edges, ix, d, q, error) && SettleFailsAt(edges, ix, d, q', error')
    ensures error == error'
  {
    LaterAgrees(edges, ix, d, q, q');
    LaterAgrees(edges, ix, d, q', q);
  }

  lemma {:induction false} SettleTarget(g: State, d: Directory, q: nat, error: GraphError)
    requires Indexed(g) && !IsFilled(g, DigestOf(d)) && !Contradicted(g, d)
    requires SettleFailsAt(g.edges, WithNode(g, DigestOf(d)).ixOf[DigestOf(d)], d, q, error)
    ensures DigestOf(d) in g.ixOf && !OnlySizeJams(g)
    ensures error == Panicked <==> Panics(g, d)
    ensures Clean(g) ==> error == WrongSize && !ParentsAgree(d, Filled(g))
  {
    hide Clean, ParentsAgree;
    var ix := g.ixOf[DigestOf(d)];
    assert g.nodes[ix].None? && g.keys[ix].preimage == d;
    if Panics(g, d) {
      var q' :| SettleFailsAt(g.edges, ix, d, q', Panicked);
      SettleOnce(g.edges, ix, d, q, error, q', Panicked);
    }
    if Clean(g) {
      WaitingEdges(g, d);
      CleanIsPending(g, q);
    }
  }

  lemma {:induction false} CleanIsPending(g: State, q: nat)
    requires Clean(g) && q < |g.edges|
    ensures g.edges[q].pending.Some? <==> g.nodes[g.edges[q].dst].None?
  {
    assert EdgeSound(g, Owned(g), g.edges[q]);
  }

  lemma {:induction false} SettledPanics(g: State, d: Directory, q: nat, error: GraphError)
    requires Indexed(g) && DigestOf(d) in g.ixOf && !IsFilled(g, DigestOf(d)) && !Contradicted(g, d)
    requires SettleFailsAt(g.edges, g.ixOf[DigestOf(d)], d, q, error)
    ensures var ix := g.ixOf[DigestOf(d)]; var g' := g.(edges := Settled(g.edges, ix, q));
      Jammed(g', ix) && Panics(g', d)
  {
    var ix := g.ixOf[DigestOf(d)];
    var g' := g.(edges := Settled(g.edges, ix, q));
    assert Indexed(g');
    var m := LastIncoming(g.edges, ix, q);
    assert g'.edges[m].dst == ix && g'.edges[m].pending.None?;
    var later := g'.edges[m + 1..];
    forall l | 0 <= l < |later| ensures later[l].dst != ix {
      assert later[l].dst == g.edges[m + 1 + l].dst;
    }
    assert SettleFailsAt(g'.edges, ix, d, m, Panicked);
    assert Filled(g') == Filled(g);
    ContradictedBySizes(g, d);
    ContradictedBySizes(g', d);
  }

  lemma {:induction false} SettledGrows(g: State, g2: State, ix: nat, n: nat)
    requires Grows(g, g2, ix)
    ensures Grows(g, g2.(edges := Settled(g2.edges, ix, n)), ix)
  {
  }

  lemma {:induction false} FillGrows(g: State, d: Directory, g2: State, ix: nat)
    requires Grows(g, g2, ix) && ix < |g2.nodes| && g2.nodes[ix].None? && g2.keys[ix] == DigestOf(d)
    requires ix < |g.nodes| ==> g.nodes[ix].None?
    ensures Grows(g, Fill(g2, ix, d), ix)
  {
    FillIndexed(g2, ix, d);
  }

  /** What stopping at an edge leaves behind, and what it says about the graph before. */
  lemma {:induction false} UnsettledFacts(g: State, d: Directory, g2: State, q: nat, error: GraphError)
    requires Indexed(g) && Indexed(WithNode(g, DigestOf(d))) && !IsFilled(g, DigestOf(d))
    requires var g1 := WithNode(g, DigestOf(d)); var ix := g1.ixOf[DigestOf(d)];
      Wiring(g1, g2, ix, d, |d.nodes|) && !Contradicted(g1, d) && SettleFailsAt(g2.edges, ix, d, q, error)
    ensures var ix := WithNode(g, DigestOf(d)).ixOf[DigestOf(d)]; var g' := g2.(edges := Settled(g2.edges, ix, q));
      Grows(g, g', ix) && Indexed(g') && ix < |g'.nodes| && g'.nodes[ix].None? && Jammed(g', ix) && Panics(g', d)
    ensures (error == Panicked <==> Panics(g, d)) && !OnlySizeJams(g) && DigestOf(d) !in Filled(g)
    ensures Clean(g) ==> error == WrongSize && !ParentsAgree(d, Filled(g))
  {
    hide Wiring, Clean, Contradicted, ChildrenAgree, ParentsAgree, Filled, PendingAgree, SettleFailsAt, Panics,
         OnlySizeJams;
    var k := DigestOf(d);
    var ix := WithNode(g, k).ixOf[k];
    WiredFrom(g, d, g2, |d.nodes|);
    SettleAgrees(g.edges, g2.edges, ix, d, q, error);
    SettleTarget(g, d, q, error);
    FilledMember(g, k);
    SettledPanics(g2, d, q, error);
    SettledGrows(g, g2, ix, q);
  }

  lemma {:induction false} AddUnsettled(g: State, d: Directory, g2: State, q: nat, error: GraphError)
    requires Indexed(g) && Indexed(WithNode(g, DigestOf(d))) && !IsFilled(g, DigestOf(d))
    requires var g1 := WithNode(g, DigestOf(d)); var ix := g1.ixOf[DigestOf(d)];
      Wiring(g1, g2, ix, d, |d.nodes|) && !Contradicted(g1, d) && SettleFailsAt(g2.edges, ix, d, q, error)
    ensures var ix := WithNode(g, DigestOf(d)).ixOf[DigestOf(d)];
      AddOutcome(g, d, Err(error), g2.(edges := Settled(g2.edges, ix, q)))
  {
    hide Wiring, Clean, Contradicted, ParentsAgree, Filled, SettleFailsAt, Panics, OnlySizeJams, Jammed, Grows,
         Indexed, Settled;
    UnsettledFacts(g, d, g2, q, error);
    var ix := WithNode(g, DigestOf(d)).ixOf[DigestOf(d)];
    JamsPersist(g, g2.(edges := Settled(g2.edges, ix, q)), ix);
  }

  lemma {:induction false} AgreementUnjams(g: State, d: Directory, ix: nat)
    requires Indexed(g) && !Contradicted(g, d) && PendingAgree(g.edges, ix, d)
    requires ix == WithNode(g, DigestOf(d)).ixOf[DigestOf(d)]
    ensures !Panics(g, d) && !Jammed(g, ix)
  {
  }

  lemma {:induction false} FillLeaves(g: State, d: Directory, g2: State, ix: nat)
    requires Indexed(g) && OnlySizeJams(g) && Grows(g, g2, ix) && ix < |g2.nodes| && g2.nodes[ix].None?
    requires g2.keys[ix] == DigestOf(d)
    requires Grows(g, Fill(g2, ix, d), ix)
    requires |g2.nodes| == |WithNode(g, DigestOf(d)).nodes| && ix == WithNode(g, DigestOf(d)).ixOf[DigestOf(d)]
    ensures OnlySizeJams(Fill(g2, ix, d))
  {
    SizeJamsPersist(g, Fill(g2, ix, d), ix);
  }

  lemma {:induction false} FilledFromClean(g: State, d: Directory, g2: State, ix: nat)
    requires Indexed(g) && Clean(g) && Indexed(WithNode(g, DigestOf(d))) && !IsFilled(g, DigestOf(d))
    requires !Contradicted(g, d)
    requires var g1 := WithNode(g, DigestOf(d)); ix == g1.ixOf[DigestOf(d)] && Wiring(g1, g2, ix, d, |d.nodes|)
    requires PendingAgree(g2.edges, ix, d) && PendingAgree(g.edges, ix, d) && g2.keys[ix] == DigestOf(d)
    ensures Accepts(g, d) && Clean(Fill(g2, ix, d)) && Filled(Fill(g2, ix, d)) == Filled(g) + {DigestOf(d)}
  {
    hide Clean, PendingAgree, Contradicted, ChildrenAgree, ParentsAgree, Wired, Fill, Grows, AgreesUpTo;
    WaitingEdges(g, d);
    ContradictedBySizes(g, d);
    StartInserting(g, d);
    assert d.nodes[..|d.nodes|] == d.nodes;
    FillIsClean(g2, ix, d);
  }

  lemma {:induction false} AddFilled(g: State, d: Directory, g2: State)
    requires Indexed(g) && Indexed(WithNode(g, DigestOf(d))) && !IsFilled(g, DigestOf(d))
    requires var g1 := WithNode(g, DigestOf(d)); var ix := g1.ixOf[DigestOf(d)];
      Wiring(g1, g2, ix, d, |d.nodes|) && !Contradicted(g1, d) && PendingAgree(g2.edges, ix, d)
    ensures var ix := WithNode(g, DigestOf(d)).ixOf[DigestOf(d)];
      ix < |g2.nodes| && AddOutcome(g, d, Ok(()), Fill(g2, ix, d))
  {
    hide Wiring, Clean, Contradicted, ChildrenAgree, ParentsAgree, Filled, PendingAgree, SettleFailsAt, OnlySizeJams;
    var k := DigestOf(d);
    var g1 := WithNode(g, k);
    var ix := g1.ixOf[k];
    WiredFrom(g, d, g2, |d.nodes|);
    var g' := Fill(g2, ix, d);
    FillIndexed(g2, ix, d);
    FillGrows(g, d, g2, ix);
    hide Grows, Settled;
    SettleAgrees(g.edges, g2.edges, ix, d, 0, Panicked);
    AgreementUnjams(g, d, ix);
    JamsPersist(g, g', ix);
    if OnlySizeJams(g) && ChildDigests(d) <= g.ixOf.Keys {
      FillLeaves(g, d, g2, ix);
    }
    if Clean(g) {
      FilledFromClean(g, d, g2, ix);
    }
  }

  lemma {:induction false} WiringStart(g: State, ix: nat, d: Directory)
    requires Indexed(g) && ix < |g.nodes| && g.keys[ix] == DigestOf(d)
    ensures Wiring(g, g, ix, d, 0)
  {
  }

  lemma {:induction false} WiringIndexed(g0: State, g: State, ix: nat, d: Directory, k: nat)
    requires Wiring(g0, g, ix, d, k)
    ensures Indexed(g) && ix < |g.nodes|
  {
  }

  lemma {:induction false} WiredAll(g0: State, g: State, ix: nat, d: Directory)
    requires Wiring(g0, g, ix, d, |d.nodes|)
    ensures Indexed(g) && ix < |g.nodes| && !Contradicted(g0, d)
  {
  }

  lemma {:induction false} LookupChild(g: State, k: Digest)
    requires Indexed(g)
    ensures var g1 := WithNode(g, k); var n := g1.nodes[g1.ixOf[k]];
      && Indexed(g1) && (n.Some? <==> IsFilled(g, k))
      && (n.Some? ==> k == DigestOf(n.value) && g1 == g)
  {
  }
}

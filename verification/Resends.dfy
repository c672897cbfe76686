/** Over runs of insertions: exactly when a call panics. */
module Resends {
  import opened Prelude
  import opened Directories
  import opened GraphStates
  import opened GraphEffects
  import opened ValidatedGraphs
  import opened DirectoryGraphs

  /** Whatever was rejected, the graph holds exactly what was accepted. */
  lemma {:induction false} RunFills(cs: seq<Config>, ds: seq<Directory>, rs: seq<Result<(), GraphError>>)
    requires Run(cs, ds, rs)
    ensures Indexed(cs[|ds|].g) && Filled(cs[|ds|].g) == Accepted(ds, rs)
  {
    hide AddOutcome, EdgesRule, RejectedRule;
    if ds != [] {
      var n := |ds| - 1;
      RunPrefix(cs, ds, rs);
      RunFills(cs[..n + 1], ds[..n], rs[..n]);
      assert AddStep(cs[n], ds[n], rs[n], cs[n + 1]);
    }
  }

  lemma {:induction false} FilledAt(cs: seq<Config>, ds: seq<Directory>, rs: seq<Result<(), GraphError>>, k: nat)
    requires Run(cs, ds, rs) && k <= |ds|
    ensures Indexed(cs[k].g) && Filled(cs[k].g) == Accepted(ds[..k], rs[..k])
  {
    hide Run;
    assert |cs| == |ds| + 1 && |rs| == |ds| by { RunLengths(cs, ds, rs); }
    RunTake(cs, ds, rs, k);
    RunFills(cs[..k + 1], ds[..k], rs[..k]);
  }

  lemma {:induction false} RunLengths(cs: seq<Config>, ds: seq<Directory>, rs: seq<Result<(), GraphError>>)
    requires Run(cs, ds, rs)
    ensures |cs| == |ds| + 1 && |rs| == |ds|
  {
  }

  predicate ForSize(r: Result<(), GraphError>) {
    r == Err(WrongSize) || r == Err(Panicked)
  }

  /** Call `i` failed although the sizes of all children present agreed: because of a referring directory. */
  ghost predicate RejectedByParent(ds: seq<Directory>, rs: seq<Result<(), GraphError>>, i: nat)
    requires |rs| == |ds|
  {
    i < |ds| && ForSize(rs[i]) && ChildrenAgree(ds[i], Accepted(ds[..i], rs[..i]))
  }

  /** Call `k` tried to add a directory that was not there before: it was accepted, or rejected for a size. */
  ghost predicate Tried(ds: seq<Directory>, rs: seq<Result<(), GraphError>>, k: nat)
    requires |rs| == |ds|
  {
    k < |ds| && (ForSize(rs[k]) || (rs[k].Ok? && DigestOf(ds[k]) !in Accepted(ds[..k], rs[..k])))
  }

  /** The entries that call `k` made edges for: all, if no directory accepted before refutes one, and otherwise those
      before the first that is refuted. */
  ghost function Linked(ds: seq<Directory>, rs: seq<Result<(), GraphError>>, k: nat): seq<Entry>
    requires |rs| == |ds| && k < |ds|
  {
    ds[k].nodes[..Unrefuted(ds[k].nodes, Accepted(ds[..k], rs[..k]))]
  }

  /** Every entry that was linked to `d` between the two calls records its size. */
  ghost predicate RightSince(ds: seq<Directory>, rs: seq<Result<(), GraphError>>, i: nat, j: nat, d: Directory)
    requires |rs| == |ds|
  {
    forall k: nat :: i < k < j && Tried(ds, rs, k) ==> RecordRight(Linked(ds, rs, k), d)
  }

  lemma {:induction false} RejectedBlocks(cs: seq<Config>, ds: seq<Directory>, rs: seq<Result<(), GraphError>>, i: nat)
    requires Run(cs, ds, rs) && RejectedByParent(ds, rs, i)
    ensures Blocked(cs[i + 1].g, ds[i], |cs[i + 1].g.edges|) && AgreeFrom(cs[i + 1].g, ds[i], |cs[i + 1].g.edges|)
    ensures Allows(cs[i + 1].o, ds[i])
  {
    hide AddOutcome, EdgesRule, AcceptedRule, Panics, Blocked, AgreeFrom, ParentsWait, ChildrenAgree;
    FilledAt(cs, ds, rs, i);
    assert AddStep(cs[i], ds[i], rs[i], cs[i + 1]);
    ContradictedBySizes(cs[i].g, ds[i]);
    PanicsBlocks(cs[i + 1].g, ds[i]);
  }

  lemma {:induction false} AllowedStays(c: Config, x: Directory, r: Result<(), GraphError>, c': Config, d: Directory)
    requires AddStep(c, x, r, c') && Allows(c.o, d) && (c.o.RootToLeaves? ==> c.o.expected != {})
    ensures Allows(c'.o, d) && (c'.o.RootToLeaves? ==> c'.o.expected != {})
  {
    hide AddOutcome, AddEffect;
  }

  /** From the rejection on, over whatever else is added, the directory stays blocked. */
  lemma {:induction false} BlockedUntil(cs: seq<Config>, ds: seq<Directory>, rs: seq<Result<(), GraphError>>,
        i: nat, j: nat)
    requires Run(cs, ds, rs) && RejectedByParent(ds, rs, i) && i < j <= |ds|
    requires forall k :: i < k < j ==> ds[k] != ds[i]
    ensures Blocked(cs[j].g, ds[i], |cs[i + 1].g.edges|)
    ensures Allows(cs[j].o, ds[i]) && (cs[j].o.RootToLeaves? ==> cs[j].o.expected != {})
  {
    hide AddOutcome, AddEffect, Blocked;
    if j == i + 1 {
      RejectedBlocks(cs, ds, rs, i);
      assert AddStep(cs[i], ds[i], rs[i], cs[i + 1]);
    } else {
      BlockedUntil(cs, ds, rs, i, j - 1);
      assert AddStep(cs[j - 1], ds[j - 1], rs[j - 1], cs[j]);
      AllowedStays(cs[j - 1], ds[j - 1], rs[j - 1], cs[j], ds[i]);
      if Allows(cs[j - 1].o, ds[j - 1]) {
        BlockedStays(cs[j - 1].g, ds[i], |cs[i + 1].g.edges|, ds[j - 1], rs[j - 1], cs[j].g);
      }
    }
  }

  /** The edges that wait since the rejection agree if and only if the entries do that they were made for. */
  lemma {:induction false} AgreeUntil(cs: seq<Config>, ds: seq<Directory>, rs: seq<Result<(), GraphError>>, i: nat,
        j: nat)
    requires Run(cs, ds, rs) && RejectedByParent(ds, rs, i) && i < j <= |ds|
    requires forall k :: i < k < j ==> ds[k] != ds[i]
    ensures Blocked(cs[j].g, ds[i], |cs[i + 1].g.edges|)
    ensures AgreeFrom(cs[j].g, ds[i], |cs[i + 1].g.edges|) <==> RightSince(ds, rs, i, j, ds[i])
  {
    hide AddOutcome, AddEffect, Blocked, AgreeFrom, RecordRight, Accepted, Tried, Linked;
    BlockedUntil(cs, ds, rs, i, j);
    if j == i + 1 {
      RejectedBlocks(cs, ds, rs, i);
    } else {
      BlockedUntil(cs, ds, rs, i, j - 1);
      AgreeUntil(cs, ds, rs, i, j - 1);
      AgreeOneMore(cs, ds, rs, j - 1, ds[i], |cs[i + 1].g.edges|);
    }
  }

  lemma {:induction false} AgreeOneMore(cs: seq<Config>, ds: seq<Directory>, rs: seq<Result<(), GraphError>>, n: nat,
        d: Directory, lo: nat)
    requires Run(cs, ds, rs) && n < |ds| && ds[n] != d
    requires Blocked(cs[n].g, d, lo) && Blocked(cs[n + 1].g, d, lo)
    ensures AgreeFrom(cs[n + 1].g, d, lo) <==>
      AgreeFrom(cs[n].g, d, lo) && (Tried(ds, rs, n) ==> RecordRight(Linked(ds, rs, n), d))
  {
    hide AddOutcome, EdgesRule, Blocked, AgreeFrom, RecordRight, Accepted, ParentsWait, Contradicted, Panics, Unrefuted;
    assert AddStep(cs[n], ds[n], rs[n], cs[n + 1]);
    FilledAt(cs, ds, rs, n);
    if Allows(cs[n].o, ds[n]) {
      AgreeStep(cs[n].g, d, lo, ds[n], rs[n], cs[n + 1].g);
    }
  }

  /** A directory whose latest attempt was rejected because of a referring directory is never accepted any more: it
      panics if no child contradicts it and every entry linked to it since records its size, and otherwise it is
      rejected for its size again. */
  lemma {:induction false} ResendPanics(cs: seq<Config>, ds: seq<Directory>, rs: seq<Result<(), GraphError>>,
        i: nat, j: nat)
    requires Run(cs, ds, rs) && RejectedByParent(ds, rs, i) && i < j < |ds| && ds[j] == ds[i]
    requires forall k :: i < k < j ==> ds[k] != ds[i]
    ensures var panics := ChildrenAgree(ds[j], Accepted(ds[..j], rs[..j])) && RightSince(ds, rs, i, j, ds[j]);
      rs[j] == Err(if panics then Panicked else WrongSize)
  {
    hide AddOutcome, AddEffect, Blocked, AgreeFrom, RightSince, Panics, Contradicted, ChildrenAgree;
    var lo := |cs[i + 1].g.edges|;
    BlockedUntil(cs, ds, rs, i, j);
    AgreeUntil(cs, ds, rs, i, j);
    FilledAt(cs, ds, rs, j);
    ContradictedBySizes(cs[j].g, ds[j]);
    BlockedPanics(cs[j].g, ds[j], lo);
    assert AddStep(cs[j], ds[j], rs[j], cs[j + 1]);
    BlockedIsRejected(cs[j].g, ds[j], lo, rs[j], cs[j + 1].g);
  }

  lemma {:induction false} NothingToWait(cs: seq<Config>, ds: seq<Directory>, rs: seq<Result<(), GraphError>>,
        d: Directory)
    requires Run(cs, ds, rs)
    ensures Indexed(cs[0].g) && EdgesWait(cs[0].g, d)
  {
  }

  /** Until an attempt is rejected because of a referring directory, all edges to a missing directory wait. */
  lemma {:induction false} WaitingUntil(cs: seq<Config>, ds: seq<Directory>, rs: seq<Result<(), GraphError>>, j: nat,
        d: Directory)
    requires Run(cs, ds, rs) && j <= |ds| && forall i :: 0 <= i < j && ds[i] == d ==> !RejectedByParent(ds, rs, i)
    ensures Indexed(cs[j].g) && EdgesWait(cs[j].g, d)
  {
    hide AddOutcome, EdgesRule, AcceptedRule, ParentsWait, Contradicted, Panics, ChildrenAgree, Accepted, EdgesWait;
    if j == 0 {
      NothingToWait(cs, ds, rs, d);
    } else {
      WaitingUntil(cs, ds, rs, j - 1, d);
      assert AddStep(cs[j - 1], ds[j - 1], rs[j - 1], cs[j]);
      FilledAt(cs, ds, rs, j - 1);
      ContradictedBySizes(cs[j - 1].g, d);
      if Allows(cs[j - 1].o, ds[j - 1]) {
        WaitingStays(cs[j - 1].g, d, ds[j - 1], rs[j - 1], cs[j].g);
      }
    }
  }

  lemma {:induction false} ChildrenAgreedBefore(ds: seq<Directory>, rs: seq<Result<(), GraphError>>, i: nat, j: nat,
        d: Directory)
    requires |rs| == |ds| && i <= j <= |ds| && ChildrenAgree(d, Accepted(ds[..j], rs[..j]))
    ensures ChildrenAgree(d, Accepted(ds[..i], rs[..i]))
  {
    assert Accepted(ds[..i], rs[..i]) <= Accepted(ds[..j], rs[..j]) by {
      forall k | 0 <= k < i && rs[k].Ok? ensures DigestOf(ds[k]) in Accepted(ds[..j], rs[..j]) {
        assert ds[..j][k] == ds[k] && rs[..j][k] == rs[k];
      }
    }
  }

  /** Call `i` is the latest attempt before call `j` to add the same directory, and a referring directory was why it
      failed. */
  ghost predicate RejectedLast(ds: seq<Directory>, rs: seq<Result<(), GraphError>>, i: nat, j: nat)
    requires |rs| == |ds| && j < |ds|
  {
    i < j && ds[i] == ds[j] && RejectedByParent(ds, rs, i) && forall k :: i < k < j ==> ds[k] != ds[j]
  }

  /** As long as no child contradicts it, every further attempt fails for the same reason. */
  lemma {:induction false} LatestIsRejected(cs: seq<Config>, ds: seq<Directory>, rs: seq<Result<(), GraphError>>,
        i: nat, j: nat) returns (l: nat)
    requires Run(cs, ds, rs) && RejectedByParent(ds, rs, i) && i < j <= |ds|
    requires ChildrenAgree(ds[i], Accepted(ds[..j], rs[..j]))
    ensures i <= l < j && ds[l] == ds[i] && RejectedByParent(ds, rs, l) && forall k :: l < k < j ==> ds[k] != ds[i]
    decreases j
  {
    hide Run, ChildrenAgree, Accepted, RightSince;
    RunLengths(cs, ds, rs);
    l := i;
    if j > i + 1 {
      ChildrenAgreedBefore(ds, rs, j - 1, j, ds[i]);
      l := LatestIsRejected(cs, ds, rs, i, j - 1);
      if ds[j - 1] == ds[i] {
        ResendPanics(cs, ds, rs, l, j - 1);
        l := j - 1;
      }
    }
  }

  /** Over every run, exactly when a call panics. */
  lemma {:induction false} PanicsExactly(cs: seq<Config>, ds: seq<Directory>, rs: seq<Result<(), GraphError>>, j: nat)
    requires Run(cs, ds, rs) && j < |ds|
    ensures rs[j] == Err(Panicked) <==>
      ChildrenAgree(ds[j], Accepted(ds[..j], rs[..j]))
      && exists i: nat :: RejectedLast(ds, rs, i, j) && RightSince(ds, rs, i, j, ds[j])
  {
    hide AddEffect, ChildrenAgree, Accepted, RightSince, RejectedByParent, Panics, Contradicted, EdgesWait;
    if rs[j] == Err(Panicked) {
      PanicHasCause(cs, ds, rs, j);
      var i: nat :| i < j && ds[i] == ds[j] && RejectedByParent(ds, rs, i);
      var l := LatestIsRejected(cs, ds, rs, i, j);
      ResendPanics(cs, ds, rs, l, j);
      assert RejectedLast(ds, rs, l, j);
    }
    if ChildrenAgree(ds[j], Accepted(ds[..j], rs[..j])) {
      forall i: nat | RejectedLast(ds, rs, i, j) && RightSince(ds, rs, i, j, ds[j]) ensures rs[j] == Err(Panicked) {
        ResendPanics(cs, ds, rs, i, j);
      }
    }
  }

  lemma {:induction false} PanicHasCause(cs: seq<Config>, ds: seq<Directory>, rs: seq<Result<(), GraphError>>, j: nat)
    requires Run(cs, ds, rs) && j < |ds| && rs[j] == Err(Panicked)
    ensures ChildrenAgree(ds[j], Accepted(ds[..j], rs[..j]))
    ensures exists i: nat :: i < j && ds[i] == ds[j] && RejectedByParent(ds, rs, i)
  {
    hide AddEffect, ChildrenAgree, Accepted, RejectedByParent, Contradicted, EdgesWait, JamsStay, CleanRule, LeavesRule;
    assert AddStep(cs[j], ds[j], rs[j], cs[j + 1]);
    FilledAt(cs, ds, rs, j);
    ContradictedBySizes(cs[j].g, ds[j]);
    if forall i: nat :: i < j && ds[i] == ds[j] ==> !RejectedByParent(ds, rs, i) {
      WaitingUntil(cs, ds, rs, j, ds[j]);
      WaitingNeverPanics(cs[j].g, ds[j]);
    }
  }

  // ---------- Two runs ----------

  const LEAF := Directory([])

  const INNER := Directory([Entry([1], DirectoryNode(DigestOf(LEAF), 7))])

  const OUTER := Directory([
    Entry([1], DirectoryNode(DigestOf(LEAF), 5)),
    Entry([2], DirectoryNode(DigestOf(INNER), Size(INNER)))])

  lemma {:induction false} Examples()
    ensures Size(LEAF) == 0 && LEAF != INNER && INNER != OUTER && LEAF != OUTER
    ensures ChildDigests(OUTER) == {DigestOf(LEAF), DigestOf(INNER)}
    ensures !RecordRight(OUTER.nodes, LEAF) && !RecordRight(INNER.nodes, LEAF) && RecordRight(OUTER.nodes, INNER)
  {
    assert OUTER.nodes[0] in OUTER.nodes && PointsTo(OUTER.nodes[0], DigestOf(LEAF));
    assert OUTER.nodes[1] in OUTER.nodes && PointsTo(OUTER.nodes[1], DigestOf(INNER));
    assert INNER.nodes[0] in INNER.nodes && PointsTo(INNER.nodes[0], DigestOf(LEAF));
  }

  lemma {:induction false} OuterIsAccepted(cs: seq<Config>, ds: seq<Directory>, rs: seq<Result<(), GraphError>>)
    requires Run(cs, ds, rs) && cs[0].o == RootToLeaves({DigestOf(OUTER)}) && |ds| >= 1 && ds[0] == OUTER
    ensures rs[0].Ok? && Clean(cs[1].g) && Indexed(cs[1].g) && Filled(cs[1].g) == {DigestOf(OUTER)}
    ensures cs[1].o == RootToLeaves({DigestOf(OUTER), DigestOf(LEAF), DigestOf(INNER)})
  {
    hide AddEffect, Size, Accepts, Clean;
    Examples();
    RunTake(cs, ds, rs, 0);
    CleanRun(cs[..1], ds[..0], rs[..0]);
    FilledAt(cs, ds, rs, 0);
    assert AddStep(cs[0], ds[0], rs[0], cs[1]);
    assert Accepts(cs[0].g, OUTER) by { NothingDisagrees(cs[0].g, OUTER); }
    assert Filled(cs[1].g) == {DigestOf(OUTER)};
  }

  /** The outer directory is accepted, and the leaf rejected because of the size it records. */
  lemma {:induction false} LeafIsRejected(cs: seq<Config>, ds: seq<Directory>, rs: seq<Result<(), GraphError>>)
    requires Run(cs, ds, rs) && cs[0].o == RootToLeaves({DigestOf(OUTER)}) && |ds| >= 2 && ds[0] == OUTER
    requires ds[1] == LEAF
    ensures rs[0].Ok? && rs[1] == Err(WrongSize) && RejectedByParent(ds, rs, 1)
    ensures cs[2].o == RootToLeaves({DigestOf(OUTER), DigestOf(LEAF), DigestOf(INNER)})
    ensures Clean(cs[1].g) && Filled(cs[1].g) == {DigestOf(OUTER)}
  {
    hide AddEffect, Size, Accepts, Clean, Accepted, Filled, Indexed;
    OuterIsAccepted(cs, ds, rs);
    assert AddStep(cs[1], ds[1], rs[1], cs[2]);
    LeafDisagrees(cs[1].g);
    assert ChildDigests(LEAF) == {};
  }

  lemma {:induction false} NothingDisagrees(g: State, d: Directory)
    requires Indexed(g) && Filled(g) == {}
    ensures Accepts(g, d)
  {
  }

  lemma {:induction false} LeafDisagrees(g: State)
    requires Indexed(g) && Filled(g) == {DigestOf(OUTER)}
    ensures !Accepts(g, LEAF)
  {
    Examples();
    assert OUTER.nodes[0] in OUTER.nodes && PointsTo(OUTER.nodes[0], DigestOf(LEAF));
    assert !ParentsAgree(LEAF, Filled(g));
  }

  /** Sent again at once, the leaf makes the graph panic. */
  lemma {:induction false} SentAgainPanics(cs: seq<Config>, rs: seq<Result<(), GraphError>>)
    requires Run(cs, [OUTER, LEAF, LEAF], rs) && cs[0].o == RootToLeaves({DigestOf(OUTER)})
    ensures |rs| == 3 && rs[0].Ok? && rs[1] == Err(WrongSize) && rs[2] == Err(Panicked)
  {
    var ds := [OUTER, LEAF, LEAF];
    hide Run, Accepted;
    assert |rs| == 3 by { RunLengths(cs, ds, rs); }
    LeafIsRejected(cs, ds, rs);
    assert ChildrenAgree(LEAF, Accepted(ds[..2], rs[..2]));
    ResendPanics(cs, ds, rs, 1, 2);
  }

  /** The inner directory waits for nothing but its parent, which records its size. */
  lemma {:induction false} InnerIsAccepted(cs: seq<Config>, ds: seq<Directory>, rs: seq<Result<(), GraphError>>)
    requires Run(cs, ds, rs) && cs[0].o == RootToLeaves({DigestOf(OUTER)})
    requires |ds| >= 3 && ds[0] == OUTER && ds[1] == LEAF && ds[2] == INNER
    ensures rs[2].Ok? && Tried(ds, rs, 2) && Linked(ds, rs, 2) == INNER.nodes
  {
    hide AddOutcome, Size, Clean, EdgesRule, RejectedRule, Accepted, RejectedByParent, Linked, OUTER, INNER, LEAF;
    hide ParentsWait, Contradicted, ChildrenAgree;
    Examples();
    LeafIsRejected(cs, ds, rs);
    assert AddStep(cs[1], ds[1], rs[1], cs[2]);
    assert AddStep(cs[2], ds[2], rs[2], cs[3]);
    FilledAt(cs, ds, rs, 2);
    InnerWaits(cs[1].g, rs[1], cs[2].g);
    ContradictedBySizes(cs[2].g, INNER);
    LinkedAll(ds, rs, 2);
  }

  lemma {:induction false} LinkedAll(ds: seq<Directory>, rs: seq<Result<(), GraphError>>, k: nat)
    requires |rs| == |ds| && k < |ds| && ChildrenAgree(ds[k], Accepted(ds[..k], rs[..k]))
    ensures Linked(ds, rs, k) == ds[k].nodes
  {
    hide Accepted, Size;
    var nodes, before := ds[k].nodes, Accepted(ds[..k], rs[..k]);
    assert forall e :: e in nodes ==> !Refuted(e, before);
    assert Unrefuted(nodes, before) == |nodes|;
  }

  lemma {:induction false} InnerWaits(g: State, r: Result<(), GraphError>, g': State)
    requires Indexed(g) && Clean(g) && Filled(g) == {DigestOf(OUTER)} && AddEffect(g, LEAF, r, g') && r.Err?
    ensures Filled(g') == Filled(g) && ParentsWait(g', INNER) && !Contradicted(g', INNER)
  {
    hide Clean, Size, RejectedRule, PendingAgree;
    Examples();
    FilledMember(g, DigestOf(INNER));
    WaitingEdges(g, INNER);
    assert ParentsAgree(INNER, Filled(g)) by { assert RecordRight(OUTER.nodes, INNER); }
    assert DigestOf(INNER) in g.ixOf by { InnerIsKnown(g); }
    var ix := g.ixOf[DigestOf(INNER)];
    SameEdgesAgree(g.edges, g'.edges, ix, INNER);
    ContradictedBySizes(g', INNER);
  }

  lemma {:induction false} InnerIsKnown(g: State)
    requires Clean(g) && DigestOf(OUTER) in Filled(g)
    ensures DigestOf(INNER) in g.ixOf
  {
    assert OUTER.nodes[1] in OUTER.nodes && PointsTo(OUTER.nodes[1], DigestOf(INNER));
    FilledMember(g, DigestOf(OUTER));
    ReferencesAreKnown(g, DigestOf(OUTER), DigestOf(INNER));
  }

  /** But not once another directory has come that refers to the leaf by yet another size. */
  lemma {:induction false} SentLaterIsRejected(cs: seq<Config>, rs: seq<Result<(), GraphError>>)
    requires Run(cs, [OUTER, LEAF, INNER, LEAF], rs) && cs[0].o == RootToLeaves({DigestOf(OUTER)})
    ensures |rs| == 4 && rs[0].Ok? && rs[1] == Err(WrongSize) && rs[2].Ok? && rs[3] == Err(WrongSize)
  {
    var ds := [OUTER, LEAF, INNER, LEAF];
    hide Run, Accepted, Tried, Linked, RejectedByParent, ChildrenAgree, RecordRight;
    assert |rs| == 4 by { RunLengths(cs, ds, rs); }
    Examples();
    LeafIsRejected(cs, ds, rs);
    InnerIsAccepted(cs, ds, rs);
    assert !RightSince(ds, rs, 1, 3, LEAF) by {
      assert Tried(ds, rs, 2) && !RecordRight(Linked(ds, rs, 2), LEAF);
    }
    ResendPanics(cs, ds, rs, 1, 3);
  }

  method AddAll(order: OrderValidator, ds: seq<Directory>)
      returns (rs: seq<Result<(), GraphError>>, ghost cs: seq<Config>)
    ensures Run(cs, ds, rs) && cs[0].o == order
  {
    hide Run, AddStep, Indexed;
    var graph := new DirectoryGraph(order);
    rs, cs := [], [graph.Cfg()];
    RunStarts(graph.Cfg(), ds[..0]);
    for i := 0 to |ds|
      invariant fresh(graph) && Indexed(graph.Val()) && |cs| == i + 1 && |rs| == i
      invariant Run(cs, ds[..i], rs) && cs[0].o == order && cs[i] == graph.Cfg()
    {
      var r := graph.Add(ds[i]);
      RunExtends(cs, ds[..i], rs, ds[i], r, graph.Cfg());
      assert ds[..i + 1] == ds[..i] + [ds[i]];
      rs, cs := rs + [r], cs + [graph.Cfg()];
    }
    assert ds[..|ds|] == ds;
  }

  /** Both runs, as calls on a graph. */
  method SendAgain() returns (atOnce: seq<Result<(), GraphError>>, later: seq<Result<(), GraphError>>)
    ensures |atOnce| == 3 && atOnce[0].Ok? && atOnce[1] == Err(WrongSize) && atOnce[2] == Err(Panicked)
    ensures |later| == 4 && later[0].Ok? && later[1] == Err(WrongSize) && later[2].Ok? && later[3] == Err(WrongSize)
  {
    hide Run;
    ghost var cs;
    atOnce, cs := AddAll(RootToLeaves({DigestOf(OUTER)}), [OUTER, LEAF, LEAF]);
    SentAgainPanics(cs, atOnce);
    later, cs := AddAll(RootToLeaves({DigestOf(OUTER)}), [OUTER, LEAF, INNER, LEAF]);
    SentLaterIsRejected(cs, later);
  }
}

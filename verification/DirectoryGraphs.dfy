/** Validation and re-ordering of a directory closure, received one directory at a time. */
module DirectoryGraphs {
  import opened Prelude
  import opened Directories
  import opened GraphStates
  import opened GraphEffects
  import opened ValidatedGraphs

  // ---------- Runs of insertions ----------

  datatype Config = Config(g: State, o: OrderValidator)

  const EMPTY := State([], [], map[], [])

  function OrderError(o: OrderValidator): GraphError {
    if o.LeavesToRoot? then UnknownReference else UnexpectedDigest
  }

  /** One call of `add`. */
  ghost predicate AddStep(c: Config, d: Directory, r: Result<(), GraphError>, c': Config) {
    && Indexed(c.g)
    && if Allows(c.o, d) then c'.o == Advance(c.o, d) && AddOutcome(c.g, d, r, c'.g) && AddEffect(c.g, d, r, c'.g)
       else c' == c && r == Err(OrderError(c.o))
  }

  /** A sequence of calls on a fresh graph, with their results and the states in between. */
  ghost predicate Run(cs: seq<Config>, ds: seq<Directory>, rs: seq<Result<(), GraphError>>) {
    && |cs| == |ds| + 1 && |rs| == |ds| && cs[0].g == EMPTY
    && forall i :: 0 <= i < |ds| ==> AddStep(cs[i], ds[i], rs[i], cs[i + 1])
  }

  ghost function Accepted(ds: seq<Directory>, rs: seq<Result<(), GraphError>>): set<Digest>
    requires |rs| == |ds|
  {
    set i | 0 <= i < |ds| && rs[i].Ok? :: DigestOf(ds[i])
  }

  lemma {:induction false} RunExtends(cs: seq<Config>, ds: seq<Directory>, rs: seq<Result<(), GraphError>>,
        d: Directory, r: Result<(), GraphError>, c: Config)
    requires Run(cs, ds, rs) && AddStep(cs[|ds|], d, r, c)
    ensures Run(cs + [c], ds + [d], rs + [r]) && Indexed(c.g)
  {
    hide AddEffect;
  }

  lemma {:induction false} RunStarts(c: Config, ds: seq<Directory>)
    requires c.g == EMPTY && ds == []
    ensures Run([c], ds, []) && Indexed(c.g)
  {
  }

  lemma {:induction false} RunPrefix(cs: seq<Config>, ds: seq<Directory>, rs: seq<Result<(), GraphError>>)
    requires Run(cs, ds, rs) && ds != []
    ensures var n := |ds| - 1; Run(cs[..n + 1], ds[..n], rs[..n])
    ensures var n := |ds| - 1;
      Accepted(ds, rs) == Accepted(ds[..n], rs[..n]) + if rs[n].Ok? then {DigestOf(ds[n])} else {}
  {
    hide AddStep;
    var n := |ds| - 1;
    forall i | 0 <= i < n ensures AddStep(cs[..n + 1][i], ds[..n][i], rs[..n][i], cs[..n + 1][i + 1]) {
      assert AddStep(cs[i], ds[i], rs[i], cs[i + 1]);
    }
  }

  lemma {:induction false} CleanStep(c: Config, d: Directory, r: Result<(), GraphError>, c': Config)
    requires AddStep(c, d, r, c') && Clean(c.g) && r != Err(WrongSize)
    ensures Indexed(c'.g) && Clean(c'.g) && r != Err(Panicked)
    ensures Filled(c'.g) == Filled(c.g) + if r.Ok? then {DigestOf(d)} else {}
  {
    hide AddEffect, Clean, Filled, Accepts;
  }

  lemma {:induction false} CleanStart()
    ensures Indexed(EMPTY) && Clean(EMPTY) && Filled(EMPTY) == {}
  {
  }

  /** As long as no size was rejected the graph holds what was accepted, and no assertion fires. */
  lemma {:induction false} CleanRun(cs: seq<Config>, ds: seq<Directory>, rs: seq<Result<(), GraphError>>)
    requires Run(cs, ds, rs) && Err(WrongSize) !in rs
    ensures Indexed(cs[|ds|].g) && Clean(cs[|ds|].g) && Filled(cs[|ds|].g) == Accepted(ds, rs)
    ensures Err(Panicked) !in rs
  {
    hide AddStep, Clean, Filled, Indexed;
    if ds == [] {
      CleanStart();
    } else {
      var n := |ds| - 1;
      RunPrefix(cs, ds, rs);
      assert rs == rs[..n] + [rs[n]];
      CleanRun(cs[..n + 1], ds[..n], rs[..n]);
      CleanStep(cs[n], ds[n], rs[n], cs[n + 1]);
    }
  }

  lemma {:induction false} RejectedOnce(c: Config, d: Directory, r: Result<(), GraphError>, c': Config)
    requires AddStep(c, d, r, c') && Clean(c.g) && r == Err(WrongSize)
    ensures Indexed(c'.g) && SomeJam(c'.g) && (Contradicted(c.g, d) || Panics(c'.g, d)) && Allows(c.o, d)
  {
    hide Clean, Panics, Contradicted, AddEffect;
  }

  lemma {:induction false} StepKeepsJam(c: Config, d: Directory, r: Result<(), GraphError>, c': Config)
    requires AddStep(c, d, r, c') && SomeJam(c.g)
    ensures SomeJam(c'.g)
  {
    hide AddEffect;
  }

  /** In either order one rejected size is final: whatever is added later, some node stays empty. */
  lemma {:induction false} RejectionIsFinal(cs: seq<Config>, ds: seq<Directory>, rs: seq<Result<(), GraphError>>)
    requires Run(cs, ds, rs) && Err(WrongSize) in rs
    ensures SomeJam(cs[|ds|].g)
  {
    hide AddStep, Clean, SomeJam;
    var n := |ds| - 1;
    RunPrefix(cs, ds, rs);
    if Err(WrongSize) in rs[..n] {
      RejectionIsFinal(cs[..n + 1], ds[..n], rs[..n]);
      StepKeepsJam(cs[n], ds[n], rs[n], cs[n + 1]);
    } else {
      assert rs == rs[..n] + [rs[n]];
      CleanRun(cs[..n + 1], ds[..n], rs[..n]);
      RejectedOnce(cs[n], ds[n], rs[n], cs[n + 1]);
    }
  }

  /** Validation succeeds on the final graph. */
  ghost predicate Validates(g: State) {
    Complete(g.nodes) && OneSource(g.nodes, g.edges)
  }

  /** Over every run: validation succeeds iff no size was rejected and the accepted directories form a closure. */
  lemma {:induction false} RunValidates(cs: seq<Config>, ds: seq<Directory>, rs: seq<Result<(), GraphError>>)
    requires Run(cs, ds, rs)
    ensures Validates(cs[|ds|].g) <==> Err(WrongSize) !in rs && IsClosure(Accepted(ds, rs))
  {
    if Err(WrongSize) in rs {
      RejectionIsFinal(cs, ds, rs);
    } else {
      CleanRun(cs, ds, rs);
      ValidationMeans(cs[|ds|].g);
    }
  }

  /** In a graph that validated, every recorded size was checked, so the global count holds. */
  lemma {:induction false} ValidatedSizes(g: State, r: Digest)
    requires Clean(g) && Complete(g.nodes) && r in Filled(g) && Filled(g) == Reach(r)
    ensures SizesRight(r)
    ensures forall d :: DigestOf(d) in Reach(r) ==> Size(d) == (2 * Descendants(d)) % TWO64
  {
    CompleteIsClosed(g);
    forall p | p in Reach(r) && p.Blake3? ensures EdgesRight(p.preimage) {
      OwnedBy(g, p);
      forall e | e in p.preimage.nodes && e.node.DirectoryNode?
        ensures e.node.digest.Blake3? && e.node.size == Size(e.node.digest.preimage)
      {
        assert EntryWired(g, g.ixOf[p], e);
        assert e.node.digest in Filled(g);
      }
    }
    forall d | DigestOf(d) in Reach(r) ensures Size(d) == (2 * Descendants(d)) % TWO64 {
      SizesRightBelow(r, DigestOf(d));
      SizeCountsDescendantsTwice(d);
    }
  }

  // ---------- Closures in order are accepted ----------

  /** All sizes between members of a closure with right sizes agree. */
  lemma {:induction false} RightSizesAgree(root: Digest, d: Directory, filled: set<Digest>)
    requires SizesRight(root) && DigestOf(d) in Reach(root) && filled <= Reach(root)
    ensures SizesAgree(d, filled)
  {
    assert EdgesRight(d);
    forall p, e | p in filled && p.Blake3? && e in p.preimage.nodes && PointsTo(e, DigestOf(d))
      ensures e.node.size == Size(d)
    {
      assert EdgesRight(p.preimage);
    }
  }

  ghost predicate AllOk(rs: seq<Result<(), GraphError>>) {
    forall i :: 0 <= i < |rs| ==> rs[i].Ok?
  }

  lemma {:induction false} AcceptedAll(ds: seq<Directory>, rs: seq<Result<(), GraphError>>)
    requires |rs| == |ds| && AllOk(rs)
    ensures forall x :: x in Accepted(ds, rs) <==> Lists(ds, x)
  {
  }

  lemma {:induction false} StepAccepts(c: Config, d: Directory, r: Result<(), GraphError>, c': Config)
    requires AddStep(c, d, r, c') && Clean(c.g) && Allows(c.o, d) && Accepts(c.g, d)
    ensures r.Ok?
  {
    hide Clean, AddEffect;
  }

  /** One more member of the closure, in an allowed position, is accepted. */
  lemma {:induction false} NextAccepted(cs: seq<Config>, ds: seq<Directory>, rs: seq<Result<(), GraphError>>,
        root: Digest)
    requires Run(cs, ds, rs) && ds != [] && SizesRight(root)
    requires forall i :: 0 <= i < |ds| ==> DigestOf(ds[i]) in Reach(root)
    requires var n := |ds| - 1; AllOk(rs[..n]) && Allows(cs[n].o, ds[n])
    ensures AllOk(rs)
  {
    hide AddStep, Clean, SizesRight, Reach, SizesAgree;
    var n := |ds| - 1;
    RunPrefix(cs, ds, rs);
    assert Err(WrongSize) !in rs[..n];
    CleanRun(cs[..n + 1], ds[..n], rs[..n]);
    AcceptedAll(ds[..n], rs[..n]);
    RightSizesAgree(root, ds[n], Filled(cs[n].g));
    StepAccepts(cs[n], ds[n], rs[n], cs[n + 1]);
  }

  lemma {:induction false} LeavesFirstAccepted(cs: seq<Config>, ds: seq<Directory>, rs: seq<Result<(), GraphError>>,
        root: Digest)
    requires Run(cs, ds, rs) && cs[0].o == LeavesToRoot({}) && LeavesFirst(ds) && SizesRight(root)
    requires forall i :: 0 <= i < |ds| ==> DigestOf(ds[i]) in Reach(root)
    ensures AllOk(rs)
  {
    if ds != [] {
      var n := |ds| - 1;
      RunPrefix(cs, ds, rs);
      assert LeavesFirst(ds[..n]) by {
        forall i, g | 0 <= i < n && References(ds[..n][i], g) ensures Lists(ds[..n][..i], g) {
          assert ds[..n][..i] == ds[..i];
        }
      }
      LeavesFirstAccepted(cs[..n + 1], ds[..n], rs[..n], root);
      assert Err(WrongSize) !in rs[..n];
      CleanRun(cs[..n + 1], ds[..n], rs[..n]);
      LeavesFirstNeverPanics(cs[..n + 1], ds[..n], rs[..n]);
      AcceptedAll(ds[..n], rs[..n]);
      forall c | c in ChildDigests(ds[n]) ensures c in cs[n].o.allowed {
        var e :| e in ds[n].nodes && e.node.DirectoryNode? && e.node.digest == c;
        assert PointsTo(e, c) && References(ds[n], c);
        assert c in Filled(cs[n].g);
      }
      NextAccepted(cs, ds, rs, root);
    }
  }

  lemma {:induction false} ExpectedGrows(cs: seq<Config>, ds: seq<Directory>, rs: seq<Result<(), GraphError>>,
        root: Digest)
    requires Run(cs, ds, rs) && cs[0].o == RootToLeaves({root}) && AllOk(rs)
    ensures var o := cs[|ds|].o;
      o.RootToLeaves? && root in o.expected && forall g :: Mentions(ds, g) ==> g in o.expected
  {
    hide AddOutcome, Accepted, Indexed, AddEffect;
    if ds != [] {
      var n := |ds| - 1;
      RunPrefix(cs, ds, rs);
      ExpectedGrows(cs[..n + 1], ds[..n], rs[..n], root);
      assert AddStep(cs[n], ds[n], rs[n], cs[n + 1]);
      forall g | Mentions(ds, g) ensures g in cs[n + 1].o.expected {
        var i :| 0 <= i < |ds| && References(ds[i], g);
        if i < n {
          assert References(ds[..n][i], g);
        } else {
          var e :| e in ds[n].nodes && PointsTo(e, g);
          assert g in ChildDigests(ds[n]);
        }
      }
    }
  }

  lemma {:induction false} RootFirstAccepted(cs: seq<Config>, ds: seq<Directory>, rs: seq<Result<(), GraphError>>,
        root: Digest)
    requires Run(cs, ds, rs) && cs[0].o == RootToLeaves({root}) && RootFirst(ds) && SizesRight(root)
    requires ds != [] ==> DigestOf(ds[0]) == root
    requires forall i :: 0 <= i < |ds| ==> DigestOf(ds[i]) in Reach(root)
    ensures AllOk(rs)
  {
    hide AddStep, SizesRight, Reach;
    if ds != [] {
      var n := |ds| - 1;
      RunPrefix(cs, ds, rs);
      assert RootFirst(ds[..n]) by {
        forall j | 0 < j < n ensures Mentions(ds[..n][..j], DigestOf(ds[..n][j])) {
          assert ds[..n][..j] == ds[..j];
        }
      }
      RootFirstAccepted(cs[..n + 1], ds[..n], rs[..n], root);
      ExpectedGrows(cs[..n + 1], ds[..n], rs[..n], root);
      NextAccepted(cs, ds, rs, root);
    }
  }

  /** Fed leaves first, the graph never panics, whatever was rejected before. */
  lemma {:induction false} LeavesFirstNeverPanics(cs: seq<Config>, ds: seq<Directory>, rs: seq<Result<(), GraphError>>)
    requires Run(cs, ds, rs) && cs[0].o == LeavesToRoot({})
    ensures Err(Panicked) !in rs
    ensures var c := cs[|ds|]; OnlySizeJams(c.g) && c.o == LeavesToRoot(c.g.ixOf.Keys)
  {
    hide AddEffect;
    if ds != [] {
      var n := |ds| - 1;
      RunPrefix(cs, ds, rs);
      LeavesFirstNeverPanics(cs[..n + 1], ds[..n], rs[..n]);
      assert AddStep(cs[n], ds[n], rs[n], cs[n + 1]);
      assert rs == rs[..n] + [rs[n]];
    }
  }

  lemma {:induction false} RunTake(cs: seq<Config>, ds: seq<Directory>, rs: seq<Result<(), GraphError>>, i: nat)
    requires Run(cs, ds, rs) && i <= |ds|
    ensures Run(cs[..i + 1], ds[..i], rs[..i])
  {
    hide AddStep;
    forall k | 0 <= k < i ensures AddStep(cs[..i + 1][k], ds[..i][k], rs[..i][k], cs[..i + 1][k + 1]) {
      assert AddStep(cs[k], ds[k], rs[k], cs[k + 1]);
    }
  }

  class DirectoryGraph {
    var nodes: seq<Option<Directory>>
    var edges: seq<Edge>
    var ixOf: map<Digest, nat>
    var order: OrderValidator
    ghost var keys: seq<Digest>

    constructor (order: OrderValidator)
      ensures this.order == order && Val() == State([], [], map[], [])
    {
      nodes, edges, ixOf, this.order, keys := [], [], map[], order, [];
    }

    ghost function Val(): State
      reads this
    {
      State(nodes, edges, ixOf, keys)
    }

    ghost function Cfg(): Config
      reads this
    {
      Config(Val(), order)
    }

    /** Index of the node for digest `k`, added empty if it is new. */
    method NodeFor(k: Digest) returns (ix: nat)
      requires Indexed(Val())
      modifies this`nodes, this`ixOf, this`keys
      ensures Indexed(Val()) && Val() == WithNode(old(Val()), k) && ix == ixOf[k] && ix < |nodes|
    {
      if k !in ixOf {
        ixOf := ixOf[k := |nodes|];
        nodes, keys := nodes + [None], keys + [k];
      }
      ix := ixOf[k];
    }

    /** First loop: an edge per child, checked at once if the child is present. */
    method WireChildren(ix: nat, d: Directory) returns (ok: bool)
      requires Indexed(Val()) && ix < |nodes| && keys[ix] == DigestOf(d)
      modifies this`nodes, this`edges, this`ixOf, this`keys
      ensures ok ==> Wires(old(Val()), Val(), ix, d, |d.nodes|)
      ensures !ok ==> Contradicted(old(Val()), d)
      ensures !ok ==> exists k: nat ::
        Wires(old(Val()), Val(), ix, d, k) && k < |d.nodes| && Refuted(d.nodes[k], Filled(old(Val())))
    {
      ghost var g0 := Val();
      hide Wiring, Indexed, IsFilled, Contradicted, Size, NewEdges;
      WiringStart(g0, ix, d);
      NewEdgesStart(g0, d);
      for k := 0 to |d.nodes|
        invariant Indexed(Val()) && ix < |nodes| && Wires(g0, Val(), ix, d, k)
      {
        var e := d.nodes[k];
        if e.node.DirectoryNode? {
          ghost var g := Val();
          LookupChild(g, e.node.digest);
          var childIx := NodeFor(e.node.digest);
          var pending: Option<EdgeWeight> := Some(EdgeWeight(e.name, e.node.size));
          if nodes[childIx].Some? {
            if e.node.size != Size(nodes[childIx].value) {
              WiringFails(g0, g, ix, d, k);
              assert Wires(g0, Val(), ix, d, k) && Refuted(d.nodes[k], Filled(g0));
              return false;
            }
            pending := None;
          }
          edges := edges + [Edge(ix, childIx, pending)];
          WiringEdge(g0, g, ix, d, k);
          NewEdgesEdge(g, |g0.edges|, ix, d, k);
          WiringIndexed(g0, Val(), ix, d, k + 1);
        } else {
          WiringSkip(g0, Val(), ix, d, k);
          NewEdgesSkip(Val(), |g0.edges|, d, k);
        }
      }
      return true;
    }

    /** Second loop: takes and checks the weight of every edge that was waiting for node `ix`, latest first. */
    method SettleParents(ix: nat, d: Directory) returns (r: Result<(), GraphError>)
      requires Indexed(Val())
      modifies this`edges
      ensures r.Ok? ==> PendingAgree(old(edges), ix, d) && edges == Settled(old(edges), ix, 0)
      ensures r.Err? ==>
        exists q: nat :: SettleFailsAt(old(edges), ix, d, q, r.error) && edges == Settled(old(edges), ix, q)
    {
      assert edges == Settled(edges, ix, |edges|);
      for n := |edges| downto 0
        invariant edges == Settled(old(edges), ix, n)
        invariant PendingAgree(old(edges)[n..], ix, d)
      {
        assert old(edges)[n..] == [old(edges)[n]] + old(edges)[n + 1..];
        if edges[n].dst == ix {
          var weight := edges[n].pending;
          edges := edges[n := edges[n].(pending := None)];
          assert edges == Settled(old(edges), ix, n);
          if weight.None? {
            assert SettleFailsAt(old(edges), ix, d, n, Panicked);
            return Err(Panicked);
          }
          if weight.value.size != Size(d) {
            assert SettleFailsAt(old(edges), ix, d, n, WrongSize);
            return Err(WrongSize);
          }
        }
        assert edges == Settled(old(edges), ix, n);
      }
      assert old(edges)[0..] == old(edges);
      return Ok(());
    }

    /** Adds a directory already known to be in order. */
    method AddOrderUnchecked(d: Directory) returns (r: Result<(), GraphError>)
      requires Indexed(Val())
      modifies this`nodes, this`edges, this`ixOf, this`keys
      ensures AddOutcome(old(Val()), d, r, Val()) && AddEffect(old(Val()), d, r, Val())
    {
      ghost var g := Val();
      hide AddOutcome, AddEffect, Indexed, Wiring, NewEdges, IsFilled, Contradicted, PendingAgree, SettleFailsAt;
      LookupChild(g, DigestOf(d));
      var ix := NodeFor(DigestOf(d));
      if nodes[ix].Some? {
        AddPresent(g, d);
        EffectPresent(g, d);
        return Ok(());
      }
      var ok := WireChildren(ix, d);
      ghost var g2 := Val();
      if !ok {
        ghost var g1 := WithNode(g, DigestOf(d));
        ghost var k: nat :| Wires(g1, g2, ix, d, k) && k < |d.nodes| && Refuted(d.nodes[k], Filled(g1));
        AddContradicted(g, d, g2, k);
        NodeContradicts(g, d);
        EffectContradicted(g, d, g2, k);
        return Err(WrongSize);
      }
      WiredAll(WithNode(g, DigestOf(d)), g2, ix, d);
      NodeContradicts(g, d);
      r := SettleParents(ix, d);
      if r.Err? {
        ghost var q: nat :| SettleFailsAt(g2.edges, ix, d, q, r.error) && edges == Settled(g2.edges, ix, q);
        AddUnsettled(g, d, g2, q, r.error);
        EffectUnsettled(g, d, g2, q, r.error);
        return;
      }
      nodes := nodes[ix := Some(d)];
      assert Val() == Fill(g2, ix, d);
      AddFilled(g, d, g2);
      EffectFilled(g, d, g2);
      return Ok(());
    }

    method Add(d: Directory) returns (r: Result<(), GraphError>)
      requires Indexed(Val())
      modifies this
      ensures AddStep(old(Cfg()), d, r, Cfg())
    {
      if !Allows(order, d) {
        return Err(OrderError(order));
      }
      order := Advance(order, d);
      r := AddOrderUnchecked(d);
    }

    method Incoming(i: nat) returns (b: bool)
      ensures b <==> HasIncoming(edges, i)
    {
      for q := 0 to |edges|
        invariant forall k :: 0 <= k < q ==> edges[k].dst != i
      {
        if edges[q].dst == i {
          return true;
        }
      }
      return false;
    }

    /** At most one node without incoming edges, then no empty node. */
    method Validate() returns (r: Result<ValidatedGraph, GraphError>)
      requires Indexed(Val())
      ensures r.Ok? <==> Validates(Val())
      ensures r.Err? ==> r.error == if OneSource(nodes, edges) then Incomplete else DisconnectedRoots
      ensures r.Ok? ==> r.value.nodes == nodes && r.value.edges == edges && IsRoot(nodes, edges, r.value.root)
      ensures r.Ok? && Clean(Val()) ==> Sound(r.value)
      ensures r.Ok? && Clean(Val()) ==>
        Filled(Val()) == if r.value.root.Some? then Reach(At(r.value, r.value.root.value)) else {}
    {
      var root: Option<nat> := None;
      for i := 0 to |nodes|
        invariant IsRoot(nodes[..i], edges, root) && OneSource(nodes[..i], edges)
      {
        var incoming := Incoming(i);
        if !incoming {
          if root.Some? {
            assert !OneSource(nodes, edges);
            return Err(DisconnectedRoots);
          }
          root := Some(i);
        }
      }
      assert nodes[..|nodes|] == nodes;
      for i := 0 to |nodes|
        invariant Complete(nodes[..i])
      {
        if nodes[i].None? {
          return Err(Incomplete);
        }
      }
      if Clean(Val()) {
        ValidatedIsSound(Val(), root);
        SourceReachesAll(Val(), root);
      }
      return Ok(ValidatedGraph(nodes, edges, root));
    }
  }
}

/** Over runs of insertions: exactly which calls are refused for being out of order. */
module InsertionOrders {
  import opened Prelude
  import opened Directories
  import opened GraphStates
  import opened GraphEffects
  import opened ValidatedGraphs
  import opened DirectoryGraphs
  import opened Resends

  predicate OutOfOrder(r: Result<(), GraphError>) {
    r == Err(UnexpectedDigest) || r == Err(UnknownReference)
  }

  /** A call before `i` that was not refused for its order refers to `g`. */
  ghost predicate Announced(ds: seq<Directory>, rs: seq<Result<(), GraphError>>, i: nat, g: Digest)
    requires i <= |ds| == |rs|
  {
    exists k :: 0 <= k < i && !OutOfOrder(rs[k]) && References(ds[k], g)
  }

  /** A call before `i` that was not refused for its order brought the directory with digest `g`. */
  ghost predicate Introduced(ds: seq<Directory>, rs: seq<Result<(), GraphError>>, i: nat, g: Digest)
    requires i <= |ds| == |rs|
  {
    exists k :: 0 <= k < i && !OutOfOrder(rs[k]) && DigestOf(ds[k]) == g
  }

  lemma {:induction false} AnnouncedNext(ds: seq<Directory>, rs: seq<Result<(), GraphError>>, i: nat, g: Digest)
    requires i < |ds| == |rs|
    ensures Announced(ds, rs, i + 1, g) <==> Announced(ds, rs, i, g) || (!OutOfOrder(rs[i]) && References(ds[i], g))
    ensures Introduced(ds, rs, i + 1, g) <==> Introduced(ds, rs, i, g) || (!OutOfOrder(rs[i]) && DigestOf(ds[i]) == g)
  {
    hide References;
  }

  /** A call is refused for its order exactly if the validator does not allow it. */
  lemma {:induction false} RefusedIfNotAllowed(cs: seq<Config>, ds: seq<Directory>, rs: seq<Result<(), GraphError>>,
        i: nat)
    requires Run(cs, ds, rs) && i < |ds|
    ensures OutOfOrder(rs[i]) <==> !Allows(cs[i].o, ds[i])
    ensures OutOfOrder(rs[i]) ==> rs[i] == Err(OrderError(cs[i].o)) && cs[i + 1].o == cs[i].o
    ensures !OutOfOrder(rs[i]) ==> cs[i + 1].o == Advance(cs[i].o, ds[i])
  {
    hide AddOutcome, EdgesRule, AcceptedRule, Allows, Advance;
    assert AddStep(cs[i], ds[i], rs[i], cs[i + 1]);
  }

  /** The root-first validator expects the root and what was announced. */
  lemma {:induction false} ExpectedIsAnnounced(cs: seq<Config>, ds: seq<Directory>, rs: seq<Result<(), GraphError>>,
        root: Digest, i: nat)
    requires Run(cs, ds, rs) && i <= |ds|
    requires cs[0].o == RootToLeaves({root}) || (cs[0].o == RootToLeaves({}) && i > 0 && root == DigestOf(ds[0]))
    ensures cs[i].o.RootToLeaves? && cs[i].o.expected != {}
    ensures forall g :: g in cs[i].o.expected <==> g == root || Announced(ds, rs, i, g)
    decreases i
  {
    hide AddStep, References, ChildDigests;
    if i > 0 {
      RefusedIfNotAllowed(cs, ds, rs, i - 1);
      if i > 1 || cs[0].o != RootToLeaves({}) {
        ExpectedIsAnnounced(cs, ds, rs, root, i - 1);
      }
      forall g ensures g in cs[i].o.expected <==> g == root || Announced(ds, rs, i, g) {
        AnnouncedNext(ds, rs, i - 1, g);
        ChildIsReferenced(ds[i - 1], g);
      }
    }
  }

  /** Root first: a directory is refused exactly if it is not the root and nothing in order before refers to it.
      Without a root to start from, the first directory is the root. */
  lemma {:induction false} RootFirstRefuses(cs: seq<Config>, ds: seq<Directory>, rs: seq<Result<(), GraphError>>,
        root: Digest, i: nat)
    requires Run(cs, ds, rs) && i < |ds|
    requires cs[0].o == RootToLeaves({root}) || (cs[0].o == RootToLeaves({}) && root == DigestOf(ds[0]))
    ensures rs[i] == Err(UnexpectedDigest) <==>
      DigestOf(ds[i]) != root
      && forall k :: 0 <= k < i && rs[k] != Err(UnexpectedDigest) ==> !References(ds[k], DigestOf(ds[i]))
    ensures rs[i] != Err(UnknownReference)
    decreases i
  {
    hide AddStep, References, Advance;
    RefusedIfNotAllowed(cs, ds, rs, i);
    if i > 0 || cs[0].o != RootToLeaves({}) {
      ExpectedIsAnnounced(cs, ds, rs, root, i);
    }
    forall k: nat | k < i ensures rs[k] != Err(UnknownReference) {
      RootFirstRefuses(cs, ds, rs, root, k);
    }
  }

  /** The leaves-first validator allows references to what was introduced. */
  lemma {:induction false} AllowedIsIntroduced(cs: seq<Config>, ds: seq<Directory>, rs: seq<Result<(), GraphError>>,
        i: nat)
    requires Run(cs, ds, rs) && i <= |ds| && cs[0].o == LeavesToRoot({})
    ensures cs[i].o.LeavesToRoot? && forall g :: g in cs[i].o.allowed <==> Introduced(ds, rs, i, g)
    decreases i
  {
    hide AddStep, References, ChildDigests;
    if i > 0 {
      RefusedIfNotAllowed(cs, ds, rs, i - 1);
      AllowedIsIntroduced(cs, ds, rs, i - 1);
      forall g ensures g in cs[i].o.allowed <==> Introduced(ds, rs, i, g) {
        AnnouncedNext(ds, rs, i - 1, g);
      }
    }
  }

  /** Leaves first: a directory is refused exactly if it refers to one that nothing in order before brought. */
  lemma {:induction false} LeavesFirstRefuses(cs: seq<Config>, ds: seq<Directory>, rs: seq<Result<(), GraphError>>,
        i: nat)
    requires Run(cs, ds, rs) && i < |ds| && cs[0].o == LeavesToRoot({})
    ensures rs[i] == Err(UnknownReference) <==>
      exists g ::
        References(ds[i], g) && forall k :: 0 <= k < i && rs[k] != Err(UnknownReference) ==> DigestOf(ds[k]) != g
    ensures rs[i] != Err(UnexpectedDigest)
    decreases i
  {
    hide AddStep, References, Advance, ChildDigests;
    RefusedIfNotAllowed(cs, ds, rs, i);
    AllowedIsIntroduced(cs, ds, rs, i);
    forall k: nat | k < i ensures rs[k] != Err(UnexpectedDigest) {
      LeavesFirstRefuses(cs, ds, rs, k);
    }
    forall g ensures g in ChildDigests(ds[i]) <==> References(ds[i], g) {
      ChildIsReferenced(ds[i], g);
    }
  }

  /** A leaf where its parent is expected, and a parent whose child has not come. */
  method Dangling() returns (rootFirst: seq<Result<(), GraphError>>, leavesFirst: seq<Result<(), GraphError>>)
    ensures rootFirst == [Err(UnexpectedDigest)] && leavesFirst == [Err(UnknownReference)]
  {
    hide Run;
    ghost var cs;
    rootFirst, cs := AddAll(RootToLeaves({DigestOf(INNER)}), [LEAF]);
    LeafIsRefused(cs, rootFirst);
    leavesFirst, cs := AddAll(LeavesToRoot({}), [INNER]);
    InnerIsRefused(cs, leavesFirst);
  }

  lemma {:induction false} LeafIsRefused(cs: seq<Config>, rs: seq<Result<(), GraphError>>)
    requires Run(cs, [LEAF], rs) && cs[0].o == RootToLeaves({DigestOf(INNER)})
    ensures rs == [Err(UnexpectedDigest)]
  {
    Examples();
    RunLengths(cs, [LEAF], rs);
    hide Run;
    RootFirstRefuses(cs, [LEAF], rs, DigestOf(INNER), 0);
  }

  lemma {:induction false} InnerIsRefused(cs: seq<Config>, rs: seq<Result<(), GraphError>>)
    requires Run(cs, [INNER], rs) && cs[0].o == LeavesToRoot({})
    ensures rs == [Err(UnknownReference)]
  {
    RunLengths(cs, [INNER], rs);
    hide Run;
    LeavesFirstRefuses(cs, [INNER], rs, 0);
    assert References([INNER][0], DigestOf(LEAF)) by {
      assert INNER.nodes[0] in INNER.nodes && PointsTo(INNER.nodes[0], DigestOf(LEAF));
    }
  }
}

/** The two graph walks that drain a validated graph, over an adjacency list. */
module Traversal {
  import opened Prelude

  type Adjacency = seq<seq<nat>>

  function Succ(adj: Adjacency, x: nat): seq<nat> {
    if x < |adj| then adj[x] else []
  }

  predicate Edge(adj: Adjacency, x: nat, y: nat) {
    y in Succ(adj, x)
  }

  function NodesBelow(n: nat): (s: set<nat>)
    ensures forall i: nat :: i in s <==> i < n
  {
    if n == 0 then {} else NodesBelow(n - 1) + {n - 1}
  }

  ghost predicate WellFormed(adj: Adjacency) {
    forall x: nat, y: nat :: Edge(adj, x, y) ==> y < |adj|
  }

  /** Every edge goes down in rank, so the graph has no cycle. */
  ghost predicate Ranked(adj: Adjacency, rank: nat -> nat) {
    WellFormed(adj) && forall x: nat, y: nat :: Edge(adj, x, y) ==> rank(y) < rank(x)
  }

  ghost predicate ClosedUnder(adj: Adjacency, s: set<nat>) {
    forall x, y :: x in s && Edge(adj, x, y) ==> y in s
  }

  ghost predicate Within(xs: seq<nat>, s: set<nat>) {
    forall x :: x in xs ==> x in s
  }

  /** `xs` holds exactly the nodes reachable from `root`: the least closed set with `root` in it. */
  ghost predicate IsReachableSet(adj: Adjacency, root: nat, xs: seq<nat>) {
    && root in xs
    && ClosedUnder(adj, set x | x in xs)
    && forall s {:trigger ClosedUnder(adj, s)} :: root in s && ClosedUnder(adj, s) ==> Within(xs, s)
  }

  ghost predicate ChildrenFirst(adj: Adjacency, order: seq<nat>) {
    forall i, y :: 0 <= i < |order| && Edge(adj, order[i], y) ==> y in order[..i]
  }

  ghost predicate HasParentIn(adj: Adjacency, before: seq<nat>, y: nat) {
    exists i :: 0 <= i < |before| && Edge(adj, before[i], y)
  }

  ghost predicate ParentEarlier(adj: Adjacency, order: seq<nat>) {
    forall j :: 0 < j < |order| ==> HasParentIn(adj, order[..j], order[j])
  }

  // ---------- Depth-first post-order ----------

  ghost predicate Above(stack: seq<nat>, p: nat, y: nat) {
    exists j :: p < j < |stack| && stack[j] == y
  }

  /** `gray` gives, for each node entered and not finished, the stack position it was entered at. */
  ghost predicate GrayMarks(stack: seq<nat>, gray: map<nat, nat>, discovered: set<nat>, finished: set<nat>) {
    && gray.Keys == discovered - finished
    && forall x :: x in gray ==> gray[x] < |stack| && stack[gray[x]] == x
  }

  /** What is stacked above an entered node ranks below it, and covers its unfinished successors. */
  ghost predicate GrayCovers(adj: Adjacency, rank: nat -> nat, stack: seq<nat>, gray: map<nat, nat>,
        finished: set<nat>) {
    && (forall x, j :: x in gray && gray[x] < j < |stack| ==> rank(stack[j]) < rank(x))
    && (forall x, y :: x in gray && Edge(adj, x, y) ==> y in finished || Above(stack, gray[x], y))
  }

  ghost predicate DfsInvariant(adj: Adjacency, rank: nat -> nat, stack: seq<nat>, gray: map<nat, nat>,
        discovered: set<nat>, finished: set<nat>) {
    && Ranked(adj, rank)
    && GrayMarks(stack, gray, discovered, finished)
    && GrayCovers(adj, rank, stack, gray, finished)
  }

  /** Entering the top node: a successor that is entered and unfinished would close a cycle. */
  lemma {:induction false} Enter(adj: Adjacency, rank: nat -> nat, stack: seq<nat>, pushed: seq<nat>,
        gray: map<nat, nat>, discovered: set<nat>, finished: set<nat>)
    requires DfsInvariant(adj, rank, stack, gray, discovered, finished) && finished <= discovered
    requires stack != [] && stack[|stack| - 1] !in discovered
    requires forall y :: y in pushed <==> Edge(adj, stack[|stack| - 1], y) && y !in discovered
    ensures var nx := stack[|stack| - 1];
      DfsInvariant(adj, rank, stack + pushed, gray[nx := |stack| - 1], discovered + {nx}, finished)
  {
    var top, nx := |stack| - 1, stack[|stack| - 1];
    var stack', gray' := stack + pushed, gray[nx := top];
    assert forall y :: y in gray ==> rank(stack[top]) < rank(y);
    forall x, y | x in gray' && Edge(adj, x, y) && y !in finished ensures Above(stack', gray'[x], y) {
      if x != nx {
        var j :| gray[x] < j < |stack| && stack[j] == y;
        assert stack'[j] == y;
      } else if y in pushed {
        var j :| 0 <= j < |pushed| && pushed[j] == y;
        assert stack'[|stack| + j] == y;
      }
    }
    forall x, j | x in gray' && gray'[x] < j < |stack'| ensures rank(stack'[j]) < rank(x) {
      if j > top {
        assert stack'[j] in pushed && rank(stack'[j]) < rank(nx);
      }
    }
  }

  /** An entered, unfinished node on top: all its successors are finished. */
  lemma {:induction false} Leave(adj: Adjacency, rank: nat -> nat, stack: seq<nat>, gray: map<nat, nat>,
        discovered: set<nat>, finished: set<nat>)
    requires DfsInvariant(adj, rank, stack, gray, discovered, finished)
    requires stack != [] && stack[|stack| - 1] in discovered && stack[|stack| - 1] !in finished
    ensures var top, nx := |stack| - 1, stack[|stack| - 1];
      && nx in gray && gray[nx] == top
      && (forall y :: Edge(adj, nx, y) ==> y in finished)
      && DfsInvariant(adj, rank, stack[..top], gray - {nx}, discovered, finished + {nx})
  {
    var top, nx := |stack| - 1, stack[|stack| - 1];
    assert nx in gray && gray[nx] == top;
    StillCovered(adj, stack, gray - {nx}, finished, finished + {nx});
  }

  lemma {:induction false} StillCovered(adj: Adjacency, stack: seq<nat>, gray: map<nat, nat>, finished: set<nat>,
        finished': set<nat>)
    requires stack != [] && finished <= finished' && stack[|stack| - 1] in finished'
    requires forall x, y :: x in gray && Edge(adj, x, y) ==> y in finished || Above(stack, gray[x], y)
    ensures forall x, y :: x in gray && Edge(adj, x, y) ==> y in finished' || Above(stack[..|stack| - 1], gray[x], y)
  {
    forall x, y | x in gray && Edge(adj, x, y) && y !in finished' ensures Above(stack[..|stack| - 1], gray[x], y) {
      var j :| gray[x] < j < |stack| && stack[j] == y;
      assert stack[..|stack| - 1][j] == y;
    }
  }

  lemma {:induction false} Skip(adj: Adjacency, rank: nat -> nat, stack: seq<nat>, gray: map<nat, nat>,
        discovered: set<nat>, finished: set<nat>)
    requires DfsInvariant(adj, rank, stack, gray, discovered, finished)
    requires stack != [] && stack[|stack| - 1] in finished
    ensures DfsInvariant(adj, rank, stack[..|stack| - 1], gray, discovered, finished)
    ensures stack[|stack| - 1] !in gray
  {
    StillCovered(adj, stack, gray, finished, finished);
  }

  lemma {:induction false} DfsStart(adj: Adjacency, rank: nat -> nat, root: nat)
    requires Ranked(adj, rank)
    ensures DfsInvariant(adj, rank, [root], map[], {}, {}) && ChildrenFirst(adj, [])
  {
  }

  lemma {:induction false} FinishKeepsOrder(adj: Adjacency, order: seq<nat>, nx: nat)
    requires ChildrenFirst(adj, order) && forall y :: Edge(adj, nx, y) ==> y in order
    ensures ChildrenFirst(adj, order + [nx])
  {
    var order' := order + [nx];
    forall i, y | 0 <= i < |order'| && Edge(adj, order'[i], y) ensures y in order'[..i] {
      if i < |order| {
        assert order'[..i] == order[..i];
      } else {
        assert order'[..i] == order;
      }
    }
  }

  lemma {:induction false} PostOrderReaches(adj: Adjacency, root: nat, order: seq<nat>)
    requires ChildrenFirst(adj, order) && root in order
    requires forall s {:trigger ClosedUnder(adj, s)} :: root in s && ClosedUnder(adj, s) ==> Within(order, s)
    ensures IsReachableSet(adj, root, order)
  {
    forall x, y | x in order && Edge(adj, x, y) ensures y in order {
      var i :| 0 <= i < |order| && order[i] == x;
      assert y in order[..i];
    }
  }

  method NotIn(ys: seq<nat>, seen: set<nat>) returns (pushed: seq<nat>)
    ensures forall y :: y in pushed <==> y in ys && y !in seen
  {
    pushed := [];
    for i := 0 to |ys|
      invariant forall y :: y in pushed <==> y in ys[..i] && y !in seen
    {
      if ys[i] !in seen {
        pushed := pushed + [ys[i]];
      }
    }
  }

  /** Depth-first post-order with an explicit stack that may hold a node several times. */
  method PostOrder(adj: Adjacency, root: nat, ghost rank: nat -> nat) returns (order: seq<nat>)
    requires Ranked(adj, rank) && root < |adj|
    ensures Distinct(order) && IsReachableSet(adj, root, order)
    ensures ChildrenFirst(adj, order)
    ensures order[|order| - 1] == root
  {
    order := [];
    hide DfsInvariant, ChildrenFirst, IsReachableSet;
    DfsStart(adj, rank, root);
    var stack, discovered: set<nat>, finished: set<nat> := [root], {}, {};
    ghost var gray: map<nat, nat> := map[];
    ghost var all := NodesBelow(|adj|);
    while stack != []
      invariant DfsInvariant(adj, rank, stack, gray, discovered, finished)
      invariant finished == (set x | x in order) && finished <= discovered <= all && Within(stack, all)
      invariant Distinct(order) && ChildrenFirst(adj, order)
      invariant stack != [] ==>
        stack[0] == root && if root in discovered then root in gray && gray[root] == 0 else |stack| == 1
      invariant stack == [] ==> order != [] && order[|order| - 1] == root
      invariant forall s {:trigger ClosedUnder(adj, s)} :: root in s && ClosedUnder(adj, s) ==>
        Within(stack, s) && Within(order, s)
      decreases all - discovered, |stack|
    {
      var nx := stack[|stack| - 1];
      if nx !in discovered {
        var pushed := NotIn(Succ(adj, nx), discovered + {nx});
        assert Edge(adj, nx, nx) ==> rank(nx) < rank(nx);
        Enter(adj, rank, stack, pushed, gray, discovered, finished);
        gray := gray[nx := |stack| - 1];
        discovered := discovered + {nx};
        stack := stack + pushed;
      } else {
        if nx in finished {
          Skip(adj, rank, stack, gray, discovered, finished);
        } else {
          Leave(adj, rank, stack, gray, discovered, finished);
          FinishKeepsOrder(adj, order, nx);
          gray := gray - {nx};
          order := order + [nx];
          finished := finished + {nx};
        }
        stack := stack[..|stack| - 1];
      }
    }
    PostOrderReaches(adj, root, order);
  }

  // ---------- Breadth first ----------

  /** The entries of `ys` not seen before, each once, in order of first visit. */
  method VisitNew(ys: seq<nat>, seen: set<nat>) returns (found: seq<nat>, seen': set<nat>)
    ensures Distinct(found) && seen' == seen + set x | x in found
    ensures forall y :: y in found <==> y in ys && y !in seen
  {
    found, seen' := [], seen;
    for i := 0 to |ys|
      invariant Distinct(found) && seen' == seen + set x | x in found
      invariant forall y :: y in found <==> y in ys[..i] && y !in seen
    {
      if ys[i] !in seen' {
        found, seen' := found + [ys[i]], seen' + {ys[i]};
      }
    }
  }

  lemma {:induction false} EnqueueKeepsParents(adj: Adjacency, line: seq<nat>, p: nat, found: seq<nat>)
    requires p < |line| && ParentEarlier(adj, line)
    requires forall y :: y in found ==> Edge(adj, line[p], y)
    ensures ParentEarlier(adj, line + found)
  {
    var line' := line + found;
    forall j | 0 < j < |line'| ensures HasParentIn(adj, line'[..j], line'[j]) {
      if j < |line| {
        assert line'[..j] == line[..j];
      } else {
        assert line'[j] in found && Edge(adj, line'[..j][p], line'[j]);
      }
    }
  }

  /** `line` is what was yielded so far, its first `done` nodes, followed by the queue. */
  ghost predicate BfsInvariant(adj: Adjacency, root: nat, line: seq<nat>, done: nat, discovered: set<nat>) {
    && WellFormed(adj) && done <= |line|
    && line != [] && line[0] == root && Distinct(line) && ParentEarlier(adj, line)
    && (forall x :: x in discovered <==> x in line)
    && (forall x :: x in line ==> x < |adj|)
    && (forall i, y :: 0 <= i < done && Edge(adj, line[i], y) ==> y in discovered)
    && forall s {:trigger ClosedUnder(adj, s)} :: root in s && ClosedUnder(adj, s) ==> Within(line, s)
  }

  lemma {:induction false} Dequeue(adj: Adjacency, root: nat, line: seq<nat>, done: nat, discovered: set<nat>,
        found: seq<nat>)
    requires BfsInvariant(adj, root, line, done, discovered) && done < |line| && Distinct(found)
    requires forall y :: y in found <==> Edge(adj, line[done], y) && y !in discovered
    ensures BfsInvariant(adj, root, line + found, done + 1, discovered + set x | x in found)
  {
    EnqueueKeepsParents(adj, line, done, found);
    DistinctAppend(line, found);
    forall i, y | 0 <= i < done + 1 && Edge(adj, line[i], y) ensures y in discovered || y in found {
    }
    forall s | root in s && ClosedUnder(adj, s) ensures Within(line + found, s) {
      assert Within(line, s) && line[done] in line;
    }
  }

  ghost function Unvisited(adj: Adjacency, order: seq<nat>): set<nat> {
    NodesBelow(|adj|) - set x | x in order
  }

  lemma {:induction false} DequeueVisits(adj: Adjacency, root: nat, line: seq<nat>, done: nat, discovered: set<nat>)
    requires BfsInvariant(adj, root, line, done, discovered) && done < |line|
    ensures Unvisited(adj, line[..done] + [line[done]]) < Unvisited(adj, line[..done])
  {
    var node := line[done];
    assert node in line && node in Unvisited(adj, line[..done]) && node !in Unvisited(adj, line[..done] + [node]);
  }

  lemma {:induction false} BfsStart(adj: Adjacency, root: nat)
    requires WellFormed(adj) && root < |adj|
    ensures BfsInvariant(adj, root, [root], 0, {root})
  {
  }

  lemma {:induction false} BfsDone(adj: Adjacency, root: nat, line: seq<nat>, discovered: set<nat>)
    requires BfsInvariant(adj, root, line, |line|, discovered)
    ensures IsReachableSet(adj, root, line) && Distinct(line) && ParentEarlier(adj, line) && line[0] == root
  {
    forall x, y | x in line && Edge(adj, x, y) ensures y in line {
      var i :| 0 <= i < |line| && line[i] == x;
    }
  }

  /** Breadth-first walk with a queue and a discovered set. */
  method BreadthFirst(adj: Adjacency, root: nat) returns (order: seq<nat>)
    requires WellFormed(adj) && root < |adj|
    ensures Distinct(order) && IsReachableSet(adj, root, order)
    ensures ParentEarlier(adj, order)
    ensures order[0] == root
  {
    order := [];
    var queue, discovered := [root], {root};
    ghost var line := [root];
    hide BfsInvariant;
    BfsStart(adj, root);
    while queue != []
      invariant order + queue == line && BfsInvariant(adj, root, line, |order|, discovered)
      decreases Unvisited(adj, order)
    {
      var node := queue[0];
      assert node == line[|order|] && order == line[..|order|];
      DequeueVisits(adj, root, line, |order|, discovered);
      var found: seq<nat>;
      ghost var before := discovered;
      found, discovered := VisitNew(Succ(adj, node), discovered);
      Dequeue(adj, root, line, |order|, before, found);
      assert (order + [node]) + (queue[1..] + found) == line + found;
      order, queue := order + [node], queue[1..] + found;
      line := line + found;
    }
    assert line == order;
    BfsDone(adj, root, line, discovered);
  }
}

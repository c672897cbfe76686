/** The export of a directory tree as a stream of archive headers and file contents. */
module Exports {
  import opened Prelude
  import opened DirectoryMessages

  // ---------- Depth ----------

  /** Longest chain of directories below `g`. */
  function Depth(g: Digest): nat
    decreases g
  {
    if g.Hash? then 1 + DepthOf(g.preimage.directories) else 0
  }

  function DepthOf(ds: seq<DirectoryNode>): nat
    decreases ds
  {
    if ds == [] then 0 else Max(Depth(ds[0].digest), DepthOf(ds[1..]))
  }

  function Max(a: nat, b: nat): nat {
    if a < b then b else a
  }

  function NodeDepth(n: Node): nat {
    if n.Dir? then Depth(n.dir.digest) else 0
  }

  function NodesDepth(ns: seq<Node>): nat {
    if ns == [] then 0 else Max(NodeDepth(ns[0]), NodesDepth(ns[1..]))
  }

  lemma {:induction false} DepthBound(ds: seq<DirectoryNode>, i: nat)
    requires i < |ds|
    ensures Depth(ds[i].digest) <= DepthOf(ds)
  {
    if i > 0 { DepthBound(ds[1..], i - 1); }
  }

  lemma {:induction false} NodesBound(ns: seq<Node>, d: Directory)
    requires forall i :: 0 <= i < |ns| ==> IsIn(ns[i], d)
    ensures NodesDepth(ns) <= DepthOf(d.directories)
  {
    if ns != [] {
      NodesBound(ns[1..], d);
      if ns[0].Dir? {
        var i :| 0 <= i < |Dirs(d)| && Dirs(d)[i] == ns[0];
        DepthBound(d.directories, i);
      }
    }
  }

  lemma {:induction false} ChildrenAreShallower(g: Digest)
    requires g.Hash?
    ensures NodesDepth(Merged(g.preimage)) < Depth(g)
  {
    forall i | 0 <= i < |Merged(g.preimage)| ensures IsIn(Merged(g.preimage)[i], g.preimage) {
      MergedMembers(g.preimage, Merged(g.preimage)[i]);
    }
    NodesBound(Merged(g.preimage), g.preimage);
  }

  // ---------- Paths ----------

  /** A cleaned rooted path, as the list of its components. */
  type Path = seq<Name>

  function FirstSlash(n: Name): (i: nat)
    ensures i <= |n|
  {
    if n == [] || n[0] == SLASH then 0 else 1 + FirstSlash(n[1..])
  }

  function Components(n: Name): seq<Name>
    decreases |n|
  {
    var i := FirstSlash(n);
    if i == |n| then [n] else [n[..i]] + Components(n[i + 1..])
  }

  /** Follows components lexically: empty ones and dots stay, two dots go up. */
  function Follow(p: Path, cs: seq<Name>): Path
    decreases |cs|
  {
    if cs == [] then p
    else
      var c := cs[0];
      var q := if c == [] || c == [DOT] then p
               else if c == [DOT, DOT] then (if p == [] then [] else p[..|p| - 1])
               else p + [c];
      Follow(q, cs[1..])
  }

  function Join(p: Path, n: Name): Path {
    Follow(p, Components(n))
  }

  lemma {:induction false} NoSlash(n: Name)
    requires SLASH !in n
    ensures FirstSlash(n) == |n|
  {
    if n != [] { NoSlash(n[1..]); }
  }

  /** A valid name adds one component. */
  lemma {:induction false} JoinValid(p: Path, n: Name)
    requires IsValidName(n)
    ensures Join(p, n) == p + [n]
  {
    NoSlash(n);
    assert Components(n) == [n] && [n][1..] == [];
    assert Follow(p, [n]) == Follow(p + [n], []);
  }

  lemma {:induction false} FollowFirst(p: Path, c: Name, cs: seq<Name>)
    ensures var q := if c == [] || c == [DOT] then p
                     else if c == [DOT, DOT] then (if p == [] then [] else p[..|p| - 1])
                     else p + [c];
      Follow(p, [c] + cs) == Follow(q, cs)
  {
    assert ([c] + cs)[1..] == cs;
  }

  /** Joining follows a name component by component: nothing and a dot stay, two dots go up, but not above the root. */
  lemma {:induction false} JoinMeans(p: Path, first: Name, rest: Name)
    requires SLASH !in first
    ensures Join(p, first) ==
      if first == [] || first == [DOT] then p
      else if first == [DOT, DOT] then (if p == [] then [] else p[..|p| - 1])
      else p + [first]
    ensures Join(p, first + [SLASH] + rest) == Join(Join(p, first), rest)
  {
    NoSlash(first);
    assert Components(first) == [first] && [first][1..] == [];
    var n := first + [SLASH] + rest;
    SlashAt(first, rest);
    assert n[..|first|] == first && n[|first| + 1..] == rest;
    assert Components(n) == [first] + Components(rest);
    FollowFirst(p, first, []);
    FollowFirst(p, first, Components(rest));
    assert [first] + [] == [first];
  }

  lemma {:induction false} SlashAt(first: Name, rest: Name)
    requires SLASH !in first
    ensures FirstSlash(first + [SLASH] + rest) == |first|
  {
    if first != [] {
      assert (first + [SLASH] + rest)[1..] == first[1..] + [SLASH] + rest;
      SlashAt(first[1..], rest);
    }
  }

  // ---------- The reference listing ----------

  datatype Kind = Folder | Regular(size: int, executable: bool) | Symlink(target: seq<Byte>)

  datatype Event = Header(path: Path, kind: Kind) | Contents(bytes: seq<Byte>)

  const TWO63: nat := 0x8000_0000_0000_0000

  /** The sizes of headers are signed. */
  function AsSigned(size: U64): int {
    if size < TWO63 then size else size - TWO64
  }

  function KindOf(n: Node): Kind {
    match n
    case Dir(_) => Folder
    case File(f) => Regular(AsSigned(f.size), f.executable)
    case Link(l) => Symlink(l.target)
  }

  /** What the two lookup functions know. */
  datatype World = World(hasDirectory: Digest -> bool, blob: seq<Byte> -> Option<seq<Byte>>)

  function Lookup(w: World, g: Digest): Option<Directory> {
    if g.Hash? && w.hasDirectory(g) then Some(g.preimage) else None
  }

  /** What was written, and whether it ended without a failing lookup. */
  datatype Output = Output(events: seq<Event>, ok: bool)

  function Then(a: Output, b: Output): Output {
    if a.ok then Output(a.events + b.events, b.ok) else a
  }

  const NOTHING := Output([], true)

  lemma {:induction false} ThenAssociates(a: Output, b: Output, c: Output)
    ensures Then(Then(a, b), c) == Then(a, Then(b, c))
  {
    assert a.events + (b.events + c.events) == (a.events + b.events) + c.events;
  }

  lemma {:induction false} ThenNothing(a: Output)
    ensures Then(a, NOTHING) == a && Then(NOTHING, a) == a
  {
    assert a.events + [] == a.events && [] + a.events == a.events;
  }

  /** What is written for a node alone. */
  function OneNode(w: World, p: Path, n: Node): Output {
    var header := Header(p, KindOf(n));
    match n
    case Link(_) => Output([header], true)
    case File(f) =>
      var blob := w.blob(f.blob);
      if blob.None? then Output([header], false) else Output([header, Contents(blob.value)], true)
    case Dir(d) => Output([header], Lookup(w, d.digest).Some?)
  }

  /** Pre-order: a node, then what is below it. */
  function ListNode(w: World, p: Path, n: Node): Output
    decreases NodeDepth(n), 0
  {
    if n.Dir? && n.dir.digest.Hash? then
      ChildrenAreShallower(n.dir.digest);
      Then(OneNode(w, p, n), ListNodes(w, p, Merged(n.dir.digest.preimage)))
    else OneNode(w, p, n)
  }

  function ListNodes(w: World, p: Path, ns: seq<Node>): Output
    decreases NodesDepth(ns), |ns|
  {
    if ns == [] then NOTHING
    else Then(ListNode(w, Join(p, ns[0].Name()), ns[0]), ListNodes(w, p, ns[1..]))
  }

  // ---------- The stack loop ----------

  /** A directory message, that is drained in place. */
  class Message {
    var directories: seq<DirectoryNode>
    var files: seq<FileNode>
    var symlinks: seq<SymlinkNode>

    ghost function Val(): Directory
      reads this
    {
      Directory(directories, files, symlinks)
    }

    constructor (d: Directory)
      ensures Val() == d
    {
      directories, files, symlinks := d.directories, d.files, d.symlinks;
    }

    /** Takes the next node out of the message: the merge of the lists loses its head. */
    method DrainNextNode() returns (r: Option<Node>)
      modifies this
      ensures r.None? ==> Merged(old(Val())) == [] && Val() == old(Val())
      ensures r.Some? ==> Merged(old(Val())) == [r.value] + Merged(Val())
    {
      SmallestIsHead(Val());
      r := SmallestNode(Directory(directories, files, symlinks));
      match r
      case None =>
      case Some(Dir(_)) => directories := directories[1..];
      case Some(File(_)) => files := files[1..];
      case Some(Link(_)) => symlinks := symlinks[1..];
    }
  }

  datatype Frame = Frame(d: Directory, path: Path)

  /** What remains to be written, from the top of the stack down. */
  ghost function Rest(w: World, frames: seq<Frame>): Output {
    if frames == [] then NOTHING
    else
      var n := |frames| - 1;
      Then(ListNodes(w, frames[n].path, Merged(frames[n].d)), Rest(w, frames[..n]))
  }

  /** Nodes of the unfolded tree, directories counted on entering and on leaving: bounds the steps of the loop. */
  ghost function Steps(n: Node): nat
    decreases NodeDepth(n), 0
  {
    if n.Dir? && n.dir.digest.Hash? then
      ChildrenAreShallower(n.dir.digest);
      2 + AllSteps(Merged(n.dir.digest.preimage))
    else 1
  }

  ghost function AllSteps(ns: seq<Node>): nat
    decreases NodesDepth(ns), |ns|
  {
    if ns == [] then 0 else Steps(ns[0]) + AllSteps(ns[1..])
  }

  ghost function StackSteps(frames: seq<Frame>): nat {
    if frames == [] then 0 else 1 + AllSteps(Merged(frames[|frames| - 1].d)) + StackSteps(frames[..|frames| - 1])
  }

  lemma {:induction false} PopFrame(w: World, frames: seq<Frame>)
    requires frames != [] && Merged(frames[|frames| - 1].d) == []
    ensures Rest(w, frames) == Rest(w, frames[..|frames| - 1])
    ensures StackSteps(frames[..|frames| - 1]) < StackSteps(frames)
  {
    ThenNothing(Rest(w, frames[..|frames| - 1]));
  }

  /** The top frame loses the node `n`, which is listed before all that remains. */
  lemma {:induction false} DrainFrame(w: World, below: seq<Frame>, p: Path, d: Directory, n: Node, d': Directory)
    requires Merged(d) == [n] + Merged(d')
    ensures Rest(w, below + [Frame(d, p)]) == Then(ListNode(w, Join(p, n.Name()), n), Rest(w, below + [Frame(d', p)]))
    ensures StackSteps(below + [Frame(d, p)]) == Steps(n) + StackSteps(below + [Frame(d', p)])
  {
    var before, after := below + [Frame(d, p)], below + [Frame(d', p)];
    assert before[..|below|] == below && after[..|below|] == below;
    assert Merged(d)[1..] == Merged(d');
    ThenAssociates(ListNode(w, Join(p, n.Name()), n), ListNodes(w, p, Merged(d')), Rest(w, below));
  }

  /** A directory that is found is listed by a frame of its own. */
  lemma {:induction false} PushFrame(w: World, frames: seq<Frame>, p: Path, n: Node)
    requires n.Dir? && Lookup(w, n.dir.digest).Some?
    ensures var top := Frame(n.dir.digest.preimage, p);
      && Then(ListNode(w, p, n), Rest(w, frames)) == Then(Output([Header(p, Folder)], true), Rest(w, frames + [top]))
      && StackSteps(frames + [top]) < Steps(n) + StackSteps(frames)
  {
    var top := Frame(n.dir.digest.preimage, p);
    assert (frames + [top])[..|frames|] == frames;
    ThenAssociates(Output([Header(p, Folder)], true), ListNodes(w, p, Merged(top.d)), Rest(w, frames));
  }

  /** Everything an export writes. A missing root directory is noticed before its header is written. */
  ghost function Exported(w: World, root: Node): Output {
    if root.Dir? && Lookup(w, root.dir.digest).None? then Output([], false) else ListNode(w, [], root)
  }

  ghost predicate OnStack(stack: seq<Message>, paths: seq<Path>, frames: seq<Frame>)
    reads stack
  {
    && |stack| == |paths| == |frames| && Distinct(stack)
    && forall i :: 0 <= i < |stack| ==> frames[i] == Frame(stack[i].Val(), paths[i])
  }

  /** One round of the loop: drains one node, or pops the top of the stack. */
  method Round(w: World, stack: seq<Message>, paths: seq<Path>, ghost frames: seq<Frame>)
      returns (events: seq<Event>, ok: bool, stack': seq<Message>, paths': seq<Path>, ghost frames': seq<Frame>)
    requires stack != [] && OnStack(stack, paths, frames)
    modifies stack
    ensures OnStack(stack', paths', frames') && fresh(set m | m in stack' && m !in stack)
    ensures ok ==>
      Rest(w, frames) == Then(Output(events, true), Rest(w, frames')) && StackSteps(frames') < StackSteps(frames)
    ensures !ok ==> Rest(w, frames) == Output(events, false)
  {
    hide ListNodes, Rest, StackSteps, Merged, Join, AllSteps;
    var n := |stack| - 1;
    var top, path := stack[n], paths[n];
    ghost var below := frames[..n];
    assert frames == below + [frames[n]];
    events, ok, stack', paths' := [], true, stack, paths;
    var next := top.DrainNextNode();
    if next.None? {
      PopFrame(w, frames);
      stack', paths', frames' := stack[..n], paths[..n], below;
      ThenNothing(Rest(w, below));
      return;
    }
    frames' := below + [Frame(top.Val(), path)];
    DrainFrame(w, below, path, frames[n].d, next.value, top.Val());
    var p := Join(path, next.value.Name());
    events := [Header(p, KindOf(next.value))];
    match next.value
    case Link(_) =>
    case File(f) =>
      var blob := w.blob(f.blob);
      if blob.None? {
        ok := false;
        return;
      }
      events := events + [Contents(blob.value)];
    case Dir(d) =>
      var found := Lookup(w, d.digest);
      if found.None? {
        ok := false;
        return;
      }
      PushFrame(w, frames', p, next.value);
      var message := new Message(found.value);
      stack', paths', frames' := stack' + [message], paths' + [p], frames' + [Frame(found.value, p)];
  }

  /** The loop over the stack writes exactly the recursive listing, up to the first failing lookup. */
  method Export(w: World, root: Node) returns (out: seq<Event>, ok: bool)
    ensures Output(out, ok) == Exported(w, root)
  {
    hide Rest, StackSteps, ListNodes, Merged;
    out, ok := [Header([], KindOf(root))], true;
    var stack: seq<Message>, paths: seq<Path> := [], [];
    ghost var frames: seq<Frame> := [];
    match root
    case File(f) =>
      var blob := w.blob(f.blob);
      if blob.None? {
        return out, false;
      }
      return out + [Contents(blob.value)], true;
    case Link(_) =>
      RestOfNothing(w);
      ThenNothing(Output(out, true));
    case Dir(d) =>
      var found := Lookup(w, d.digest);
      if found.None? {
        return [], false;
      }
      var message := new Message(found.value);
      stack, paths, frames := [message], [[]], [Frame(found.value, [])];
      RestOfNothing(w);
      PushFrame(w, [], [], root);
      ThenNothing(ListNode(w, [], root));
      assert [] + [frames[0]] == frames;
    ghost var full := ListNode(w, [], root);
    while stack != []
      invariant OnStack(stack, paths, frames) && fresh(stack)
      invariant Then(Output(out, true), Rest(w, frames)) == full
      decreases StackSteps(frames)
    {
      hide ListNode;
      ghost var rest := Rest(w, frames);
      var events, fine, s, ps, fs := Round(w, stack, paths, frames);
      ThenAssociates(Output(out, true), Output(events, true), Rest(w, fs));
      out := out + events;
      if !fine {
        return out, false;
      }
      stack, paths, frames := s, ps, fs;
    }
    RestOfNothing(w);
    ThenNothing(Output(out, true));
  }

  lemma {:induction false} RestOfNothing(w: World)
    ensures Rest(w, []) == NOTHING
  {
  }
}

/** Directory messages of the Go implementation: validation, and the merge of their three lists. */
module DirectoryMessages {
  import opened Prelude

  type Name = seq<Byte>

  /** An ideal hash: the 32 bytes of one directory, or bytes that are the hash of no directory. */
  datatype Digest = Hash(preimage: Directory) | Other(bytes: seq<Byte>)

  datatype DirectoryNode = DirectoryNode(name: Name, digest: Digest, size: U64)

  datatype FileNode = FileNode(name: Name, blob: seq<Byte>, size: U64, executable: bool)

  datatype SymlinkNode = SymlinkNode(name: Name, target: seq<Byte>)

  datatype Directory = Directory(directories: seq<DirectoryNode>, files: seq<FileNode>, symlinks: seq<SymlinkNode>)

  datatype Node = Dir(dir: DirectoryNode) | File(file: FileNode) | Link(link: SymlinkNode)
  {
    function Name(): Name {
      match this
      case Dir(d) => d.name
      case File(f) => f.name
      case Link(l) => l.name
    }
  }

  function Dirs(d: Directory): (s: seq<Node>)
    ensures |s| == |d.directories|
  {
    seq(|d.directories|, i requires 0 <= i < |d.directories| => Dir(d.directories[i]))
  }

  function Files(d: Directory): (s: seq<Node>)
    ensures |s| == |d.files|
  {
    seq(|d.files|, i requires 0 <= i < |d.files| => File(d.files[i]))
  }

  function Links(d: Directory): (s: seq<Node>)
    ensures |s| == |d.symlinks|
  {
    seq(|d.symlinks|, i requires 0 <= i < |d.symlinks| => Link(d.symlinks[i]))
  }

  ghost predicate IsIn(n: Node, d: Directory) {
    n in Dirs(d) || n in Files(d) || n in Links(d)
  }

  function Entries(d: Directory): nat {
    |d.directories| + |d.files| + |d.symlinks|
  }

  // ---------- Validation ----------

  const SLASH: Byte := 47
  const DOT: Byte := 46

  predicate IsValidName(n: Name) {
    !(n == [] || n == [DOT, DOT] || n == [DOT] || 0 in n || SLASH in n)
  }

  function DigestLength(g: Digest): nat {
    if g.Hash? then 32 else |g.bytes|
  }

  predicate IsValidNode(n: Node) {
    && IsValidName(n.Name())
    && match n
       case Dir(d) => DigestLength(d.digest) == 32
       case File(f) => |f.blob| == 32
       case Link(l) => l.target != [] && 0 !in l.target
  }

  ghost predicate Increasing(s: seq<Node>) {
    forall i, j :: 0 <= i < j < |s| ==> LexLess(s[i].Name(), s[j].Name())
  }

  ghost predicate NamesApart(s: seq<Node>, t: seq<Node>) {
    forall i, j :: 0 <= i < |s| && 0 <= j < |t| ==> s[i].Name() != t[j].Name()
  }

  ghost predicate AllValid(s: seq<Node>) {
    forall i :: 0 <= i < |s| ==> IsValidNode(s[i])
  }

  /** Valid nodes in three sorted lists, no name twice. */
  ghost predicate IsValidDirectory(d: Directory) {
    && AllValid(Dirs(d)) && AllValid(Files(d)) && AllValid(Links(d))
    && Increasing(Dirs(d)) && Increasing(Files(d)) && Increasing(Links(d))
    && NamesApart(Dirs(d), Files(d)) && NamesApart(Dirs(d), Links(d)) && NamesApart(Files(d), Links(d))
  }

  /** Not empty, not one or two dots, and neither a zero byte nor a slash in it. */
  predicate GoodName(n: Name) {
    && |n| > 0 && !(|n| == 1 && n[0] == 46) && !(|n| == 2 && n[0] == 46 && n[1] == 46)
    && forall i :: 0 <= i < |n| ==> n[i] != 0 && n[i] != 47
  }

  /** The rules for a node, in terms of bytes and lengths. */
  lemma {:induction false} NodeMeans(n: Node)
    ensures n.Dir? ==>
      (IsValidNode(n) <==> GoodName(n.dir.name) && (n.dir.digest.Other? ==> |n.dir.digest.bytes| == 32))
    ensures n.File? ==> (IsValidNode(n) <==> GoodName(n.file.name) && |n.file.blob| == 32)
    ensures n.Link? ==>
      (IsValidNode(n) <==>
       GoodName(n.link.name) && |n.link.target| > 0 && forall i :: 0 <= i < |n.link.target| ==> n.link.target[i] != 0)
  {
    var name := n.Name();
    if !IsValidName(name) && name != [] && name != [DOT] && name != [DOT, DOT] {
      var i :| 0 <= i < |name| && (name[i] == 0 || name[i] == SLASH);
    }
  }

  datatype ValidationError = InvalidNode | Unsorted | Duplicate

  ghost function NamesOf(s: seq<Node>): set<Name> {
    set i | 0 <= i < |s| :: s[i].Name()
  }

  /** The list is as `Validate` wants it, given the names seen in earlier lists. */
  ghost predicate ListOk(s: seq<Node>, seen: set<Name>) {
    AllValid(s) && Increasing(s) && forall i :: 0 <= i < |s| ==> s[i].Name() !in seen
  }

  ghost predicate Refutes(e: ValidationError, s: seq<Node>, seen: set<Name>) {
    match e
    case InvalidNode => !AllValid(s)
    case Unsorted => !Increasing(s)
    case Duplicate => exists i :: 0 <= i < |s| && s[i].Name() in seen
  }

  lemma {:induction false} IncreasingNext(s: seq<Node>, n: Node)
    requires Increasing(s) && (s != [] ==> LexLess(s[|s| - 1].Name(), n.Name()))
    ensures Increasing(s + [n])
  {
    forall i | 0 <= i < |s| - 1 ensures LexLess(s[i].Name(), n.Name()) {
      LexTransitive(s[i].Name(), s[|s| - 1].Name(), n.Name());
    }
  }

  function LastName(s: seq<Node>): Name {
    if s == [] then [] else s[|s| - 1].Name()
  }

  lemma {:induction false} CheckAccepts(s: seq<Node>, n: Node, seen: set<Name>)
    requires ListOk(s, seen) && IsValidNode(n) && LexLess(LastName(s), n.Name())
    ensures NamesOf(s + [n]) == NamesOf(s) + {n.Name()}
    ensures n.Name() !in NamesOf(s)
    ensures n.Name() !in seen ==> ListOk(s + [n], seen)
  {
    IncreasingNext(s, n);
    forall j | 0 <= j < |s| ensures n.Name() != s[j].Name() {
      LexTotal(s[j].Name(), n.Name());
      assert LexLess((s + [n])[j].Name(), (s + [n])[|s|].Name());
    }
    forall x | x in NamesOf(s) + {n.Name()} ensures x in NamesOf(s + [n]) {
      if x == n.Name() {
        assert (s + [n])[|s|] == n;
      } else {
        var j :| 0 <= j < |s| && s[j].Name() == x;
        assert (s + [n])[j] == s[j];
      }
    }
  }

  /** One failing check refutes the whole list. */
  lemma {:induction false} CheckRefutes(s: seq<Node>, i: nat, seen: set<Name>, e: ValidationError)
    requires i < |s|
    requires match e
      case InvalidNode => !IsValidNode(s[i])
      case Unsorted => IsValidNode(s[i]) && !LexLess(LastName(s[..i]), s[i].Name())
      case Duplicate => s[i].Name() in seen
    ensures Refutes(e, s, seen)
  {
    if e == Unsorted && i > 0 {
      assert LastName(s[..i]) == s[i - 1].Name();
    }
  }

  /** Checks one of the three lists: validity, then order, then uniqueness among all names so far. */
  method CheckList(s: seq<Node>, seen: set<Name>) returns (r: Result<set<Name>, ValidationError>)
    ensures r.Ok? <==> ListOk(s, seen)
    ensures r.Ok? ==> r.value == seen + NamesOf(s)
    ensures r.Err? ==> Refutes(r.error, s, seen)
  {
    hide AllValid, Increasing, NamesOf;
    var names, last := seen, [];
    assert ListOk(s[..0], seen) && NamesOf(s[..0]) == {} by { EmptyIsOk(s[..0], seen); }
    for i := 0 to |s|
      invariant ListOk(s[..i], seen) && names == seen + NamesOf(s[..i]) && last == LastName(s[..i])
    {
      hide ListOk, Refutes, LexLess, IsValidNode;
      assert s[..i + 1] == s[..i] + [s[i]];
      if !IsValidNode(s[i]) {
        CheckRefutes(s, i, seen, InvalidNode);
        RefutedIsNotOk(InvalidNode, s, seen);
        return Err(InvalidNode);
      }
      if !LexLess(last, s[i].Name()) {
        CheckRefutes(s, i, seen, Unsorted);
        RefutedIsNotOk(Unsorted, s, seen);
        return Err(Unsorted);
      }
      last := s[i].Name();
      CheckAccepts(s[..i], s[i], seen);
      if s[i].Name() in names {
        CheckRefutes(s, i, seen, Duplicate);
        RefutedIsNotOk(Duplicate, s, seen);
        return Err(Duplicate);
      }
      names := names + {s[i].Name()};
    }
    assert s[..|s|] == s;
    return Ok(names);
  }

  lemma {:induction false} EmptyIsOk(s: seq<Node>, seen: set<Name>)
    requires s == []
    ensures ListOk(s, seen) && NamesOf(s) == {}
  {
  }

  lemma {:induction false} RefutedIsNotOk(e: ValidationError, s: seq<Node>, seen: set<Name>)
    requires Refutes(e, s, seen)
    ensures !ListOk(s, seen)
  {
  }

  /** Accepts a directory exactly when it is valid. */
  method Validate(d: Directory) returns (r: Result<(), ValidationError>)
    ensures r.Ok? <==> IsValidDirectory(d)
  {
    hide AllValid, Increasing;
    var seen := CheckList(Dirs(d), {});
    if seen.Err? {
      return Err(seen.error);
    }
    seen := CheckList(Files(d), seen.value);
    if seen.Err? {
      return Err(seen.error);
    }
    seen := CheckList(Links(d), seen.value);
    if seen.Err? {
      return Err(seen.error);
    }
    return Ok(());
  }

  // ---------- The three-way merge ----------

  function SmallerNode(a: Node, b: Node): Node {
    if LexLess(a.Name(), b.Name()) then a else b
  }

  /** The least of the heads of the three lists. */
  function SmallestNode(d: Directory): Option<Node> {
    if |d.directories| > 0 then
      if |d.files| > 0 then
        if |d.symlinks| > 0 then
          Some(SmallerNode(SmallerNode(Dir(d.directories[0]), File(d.files[0])), Link(d.symlinks[0])))
        else
          Some(SmallerNode(Dir(d.directories[0]), File(d.files[0])))
      else
        if |d.symlinks| > 0 then
          Some(SmallerNode(Dir(d.directories[0]), Link(d.symlinks[0])))
        else
          Some(Dir(d.directories[0]))
    else
      if |d.files| > 0 then
        if |d.symlinks| > 0 then
          Some(SmallerNode(File(d.files[0]), Link(d.symlinks[0])))
        else
          Some(File(d.files[0]))
      else
        if |d.symlinks| > 0 then
          Some(Link(d.symlinks[0]))
        else
          None
  }

  /** `n` heads its list. */
  predicate IsHead(n: Node, d: Directory) {
    match n
    case Dir(x) => d.directories != [] && d.directories[0] == x
    case File(x) => d.files != [] && d.files[0] == x
    case Link(x) => d.symlinks != [] && d.symlinks[0] == x
  }

  lemma {:induction false} SmallestIsHead(d: Directory)
    ensures SmallestNode(d).None? <==> Entries(d) == 0
    ensures SmallestNode(d).Some? ==> IsHead(SmallestNode(d).value, d)
  {
  }

  function Drained(d: Directory, n: Node): (d': Directory)
    requires IsHead(n, d)
    ensures Entries(d') == Entries(d) - 1
  {
    match n
    case Dir(_) => d.(directories := d.directories[1..])
    case File(_) => d.(files := d.files[1..])
    case Link(_) => d.(symlinks := d.symlinks[1..])
  }

  /** The order in which repeated draining yields the nodes. */
  function Merged(d: Directory): (s: seq<Node>)
    ensures |s| == Entries(d)
    decreases Entries(d)
  {
    SmallestIsHead(d);
    match SmallestNode(d)
    case None => []
    case Some(n) => [n] + Merged(Drained(d, n))
  }

  lemma {:induction false} DrainedMembers(d: Directory, n: Node, m: Node)
    requires IsHead(n, d)
    ensures IsIn(m, d) <==> m == n || IsIn(m, Drained(d, n))
  {
    var d' := Drained(d, n);
    match n
    case Dir(_) => assert Dirs(d) == [n] + Dirs(d') && Files(d) == Files(d') && Links(d) == Links(d');
    case File(_) => assert Files(d) == [n] + Files(d') && Dirs(d) == Dirs(d') && Links(d) == Links(d');
    case Link(_) => assert Links(d) == [n] + Links(d') && Dirs(d) == Dirs(d') && Files(d) == Files(d');
  }

  lemma {:induction false} MergedMembers(d: Directory, m: Node)
    ensures m in Merged(d) <==> IsIn(m, d)
    decreases Entries(d)
  {
    SmallestIsHead(d);
    if SmallestNode(d).Some? {
      var n := SmallestNode(d).value;
      DrainedMembers(d, n, m);
      MergedMembers(Drained(d, n), m);
    }
  }

  /** Three increasing lists with no name in common: what the merge needs of a valid directory. */
  ghost predicate Sorted(d: Directory) {
    && Increasing(Dirs(d)) && Increasing(Files(d)) && Increasing(Links(d))
    && NamesApart(Dirs(d), Files(d)) && NamesApart(Dirs(d), Links(d)) && NamesApart(Files(d), Links(d))
  }

  lemma {:induction false} DrainedSorted(d: Directory, n: Node)
    requires Sorted(d) && IsHead(n, d)
    ensures Sorted(Drained(d, n))
  {
    var d' := Drained(d, n);
    match n
    case Dir(_) => assert Dirs(d') == Dirs(d)[1..] && Files(d) == Files(d') && Links(d) == Links(d');
    case File(_) => assert Files(d') == Files(d)[1..] && Dirs(d) == Dirs(d') && Links(d) == Links(d');
    case Link(_) => assert Links(d') == Links(d)[1..] && Dirs(d) == Dirs(d') && Files(d) == Files(d');
  }

  predicate AtMostName(a: Node, b: Node) {
    a.Name() == b.Name() || LexLess(a.Name(), b.Name())
  }

  lemma {:induction false} SmallerIsLeast(a: Node, b: Node)
    ensures var m := SmallerNode(a, b); (m == a || m == b) && AtMostName(m, a) && AtMostName(m, b)
  {
    LexTotal(a.Name(), b.Name());
  }

  lemma {:induction false} AtMostTransitive(a: Node, b: Node, c: Node)
    requires AtMostName(a, b) && AtMostName(b, c)
    ensures AtMostName(a, c)
  {
    if LexLess(a.Name(), b.Name()) && LexLess(b.Name(), c.Name()) {
      LexTransitive(a.Name(), b.Name(), c.Name());
    }
  }

  ghost predicate AtMostHead(n: Node, s: seq<Node>) {
    s != [] ==> AtMostName(n, s[0])
  }

  lemma {:induction false} SmallestIsAtMostHeads(d: Directory)
    requires SmallestNode(d).Some?
    ensures var n := SmallestNode(d).value; AtMostHead(n, Dirs(d)) && AtMostHead(n, Files(d)) && AtMostHead(n, Links(d))
  {
    hide LexLess;
    if d.directories != [] && d.files != [] {
      var a, b := Dir(d.directories[0]), File(d.files[0]);
      SmallerIsLeast(a, b);
      if d.symlinks != [] {
        var m, c := SmallerNode(a, b), Link(d.symlinks[0]);
        SmallerIsLeast(m, c);
        AtMostTransitive(SmallerNode(m, c), m, a);
        AtMostTransitive(SmallerNode(m, c), m, b);
      }
    } else if d.symlinks != [] {
      if d.directories != [] { SmallerIsLeast(Dir(d.directories[0]), Link(d.symlinks[0])); }
      if d.files != [] { SmallerIsLeast(File(d.files[0]), Link(d.symlinks[0])); }
    }
  }

  lemma {:induction false} AtMostAll(n: Node, s: seq<Node>, i: nat)
    requires Increasing(s) && AtMostHead(n, s) && i < |s|
    ensures AtMostName(n, s[i])
  {
    if i > 0 { AtMostTransitive(n, s[0], s[i]); }
  }

  lemma {:induction false} SameNameSameNode(s: seq<Node>, i: nat, j: nat)
    requires Increasing(s) && i < |s| && j < |s| && s[i].Name() == s[j].Name()
    ensures s[i] == s[j]
  {
    LexTotal(s[i].Name(), s[j].Name());
    assert !LexLess(s[i].Name(), s[j].Name()) && !LexLess(s[j].Name(), s[i].Name());
  }

  lemma {:induction false} NamesAreUnique(d: Directory, m: Node, n: Node)
    requires Sorted(d) && IsIn(m, d) && IsIn(n, d) && m.Name() == n.Name()
    ensures m == n
  {
    if m in Dirs(d) && n in Dirs(d) {
      var i, j :| 0 <= i < |Dirs(d)| && 0 <= j < |Dirs(d)| && Dirs(d)[i] == m && Dirs(d)[j] == n;
      SameNameSameNode(Dirs(d), i, j);
    } else if m in Files(d) && n in Files(d) {
      var i, j :| 0 <= i < |Files(d)| && 0 <= j < |Files(d)| && Files(d)[i] == m && Files(d)[j] == n;
      SameNameSameNode(Files(d), i, j);
    } else if m in Links(d) && n in Links(d) {
      var i, j :| 0 <= i < |Links(d)| && 0 <= j < |Links(d)| && Links(d)[i] == m && Links(d)[j] == n;
      SameNameSameNode(Links(d), i, j);
    }
  }

  /** In a sorted directory the drained node comes before every other one. */
  lemma {:induction false} SmallestIsLeast(d: Directory, m: Node)
    requires Sorted(d) && IsIn(m, d)
    ensures SmallestNode(d).Some? && (m == SmallestNode(d).value || LexLess(SmallestNode(d).value.Name(), m.Name()))
  {
    hide LexLess;
    SmallestIsHead(d);
    var n := SmallestNode(d).value;
    SmallestIsAtMostHeads(d);
    if i :| 0 <= i < |Dirs(d)| && Dirs(d)[i] == m { AtMostAll(n, Dirs(d), i); }
    if i :| 0 <= i < |Files(d)| && Files(d)[i] == m { AtMostAll(n, Files(d), i); }
    if i :| 0 <= i < |Links(d)| && Links(d)[i] == m { AtMostAll(n, Links(d), i); }
    DrainedMembers(d, n, n);
    if m.Name() == n.Name() { NamesAreUnique(d, m, n); }
  }

  /** Draining a sorted directory yields its nodes by strictly increasing name. */
  lemma {:induction false} MergedIncreases(d: Directory)
    requires Sorted(d)
    ensures Increasing(Merged(d))
    decreases Entries(d)
  {
    SmallestIsHead(d);
    if SmallestNode(d).Some? {
      var n := SmallestNode(d).value;
      var rest := Merged(Drained(d, n));
      DrainedSorted(d, n);
      MergedIncreases(Drained(d, n));
      LaterIsOther(d, n);
      forall j | 0 <= j < |rest| ensures LexLess(n.Name(), rest[j].Name()) {
        var m := rest[j];
        MergedMembers(Drained(d, n), m);
        DrainedMembers(d, n, m);
        SmallestIsLeast(d, m);
      }
    }
  }

  lemma {:induction false} HeadIsUnique(s: seq<Node>)
    requires Increasing(s) && s != []
    ensures s[0] !in s[1..]
  {
    forall i | 0 < i < |s| ensures s[i] != s[0] {
      LexTotal(s[0].Name(), s[i].Name());
      assert LexLess(s[0].Name(), s[i].Name());
    }
  }

  /** A node does not occur again behind the head. */
  lemma {:induction false} LaterIsOther(d: Directory, n: Node)
    requires Sorted(d) && IsHead(n, d)
    ensures !IsIn(n, Drained(d, n))
  {
    var d' := Drained(d, n);
    match n
    case Dir(_) => HeadIsUnique(Dirs(d)); assert Dirs(d') == Dirs(d)[1..];
    case File(_) => HeadIsUnique(Files(d)); assert Files(d') == Files(d)[1..];
    case Link(_) => HeadIsUnique(Links(d)); assert Links(d') == Links(d)[1..];
  }
}

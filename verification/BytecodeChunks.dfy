/** Chunks of bytecode as the compiler builds them: emission, jump patching, and the table of source spans. */
module BytecodeChunks {
  import opened Prelude
  import opened Opcodes
  import opened Bytecode

  // ---------- Source spans ----------

  type Span = nat

  /** The span of all code from `start` up to the next entry. */
  datatype SourceSpan = SourceSpan(span: Span, start: nat)

  ghost predicate Ascending(s: seq<nat>) {
    forall i, j :: 0 <= i < j < |s| ==> s[i] < s[j]
  }

  ghost predicate SpansAscend(spans: seq<SourceSpan>) {
    forall i, j :: 0 <= i < j < |spans| ==> spans[i].start < spans[j].start
  }

  /** Entry `j` is the last one that starts at or before `offset`. */
  ghost predicate Covers(spans: seq<SourceSpan>, j: nat, offset: nat) {
    j < |spans| && spans[j].start <= offset && (j + 1 < |spans| ==> offset < spans[j + 1].start)
  }

  /** The table gives every instruction the span that was given for it; entries only start at instructions. */
  ghost predicate TableOk(spans: seq<SourceSpan>, starts: seq<nat>, given: seq<Span>) {
    && SpansAscend(spans) && |starts| == |given|
    && (starts != [] ==> spans != [] && spans[0].start == starts[0])
    && (forall j :: 0 <= j < |spans| ==> spans[j].start in starts)
    && (forall j: nat, k :: 0 <= k < |starts| && Covers(spans, j, starts[k]) ==> spans[j].span == given[k])
  }

  /** The table after a push: a repeated span needs no entry of its own. */
  function Pushed(spans: seq<SourceSpan>, span: Span, start: nat): seq<SourceSpan> {
    if spans != [] && spans[|spans| - 1].span == span then spans else spans + [SourceSpan(span, start)]
  }

  lemma {:induction false} PushedIsOk(spans: seq<SourceSpan>, starts: seq<nat>, given: seq<Span>, span: Span,
        start: nat)
    requires TableOk(spans, starts, given) && forall x :: x in starts ==> x < start
    ensures TableOk(Pushed(spans, span, start), starts + [start], given + [span])
  {
    var spans', starts', given' := Pushed(spans, span, start), starts + [start], given + [span];
    forall j | 0 <= j < |spans| ensures spans[j].start < start {
    }
    forall j | 0 <= j < |spans'| ensures spans'[j].start in starts' {
      if j < |spans| { assert spans[j].start in starts; }
    }
    forall j: nat, k | 0 <= k < |starts'| && Covers(spans', j, starts'[k]) ensures spans'[j].span == given'[k] {
      if k < |starts| {
        assert starts[k] in starts;
        assert Covers(spans, j, starts[k]);
      }
    }
  }

  /** Offset `o` belongs to instruction `k`. */
  ghost predicate Owns(starts: seq<nat>, k: nat, o: nat) {
    k < |starts| && starts[k] <= o && (k + 1 < |starts| ==> o < starts[k + 1])
  }

  lemma {:induction false} OwnerHasSpan(spans: seq<SourceSpan>, starts: seq<nat>, given: seq<Span>, j: nat, k: nat,
        o: nat)
    requires TableOk(spans, starts, given) && Ascending(starts) && Covers(spans, j, o) && Owns(starts, k, o)
    ensures spans[j].span == given[k]
  {
    var m :| 0 <= m < |starts| && starts[m] == spans[j].start;
    assert m <= k;
    assert Covers(spans, j, starts[k]);
  }

  /** Bisection: an entry that starts at the offset, or where one would be inserted. */
  method SearchSpans(spans: seq<SourceSpan>, offset: nat) returns (found: bool, index: nat)
    requires SpansAscend(spans)
    ensures found ==> index < |spans| && spans[index].start == offset
    ensures !found ==> index <= |spans| && (index > 0 ==> spans[index - 1].start < offset)
    ensures !found ==> index < |spans| ==> offset < spans[index].start
  {
    var lo, hi := 0, |spans|;
    while lo < hi
      invariant 0 <= lo <= hi <= |spans|
      invariant lo > 0 ==> spans[lo - 1].start < offset
      invariant hi < |spans| ==> offset < spans[hi].start
    {
      var mid := (lo + hi) / 2;
      if spans[mid].start < offset {
        lo := mid + 1;
      } else if spans[mid].start > offset {
        hi := mid;
      } else {
        return true, mid;
      }
    }
    return false, lo;
  }

  // ---------- Jumps ----------

  /** Where a taken jump goes: behind its operand, plus the offset. */
  function Target(codec: Codec, list: seq<Insn>, k: nat): nat
    requires AllFormed(list) && k < |list| && list[k].Branch?
  {
    Start(codec, list, k) + 3 + list[k].offset
  }

  /** Bytes between the end of jump `k` and the start of instruction `n`. */
  function Distance(codec: Codec, list: seq<Insn>, k: nat, n: nat): int
    requires AllFormed(list) && k < |list| && n <= |list|
  {
    Start(codec, list, n) - Start(codec, list, k) - 3
  }

  ghost predicate JumpOk(codec: Codec, list: seq<Insn>, k: nat, n: nat)
    requires AllFormed(list)
  {
    k < n <= |list| && list[k].Branch? && list[k].offset == Distance(codec, list, k, n) % 65536
  }

  /** Every jump that was patched when there were `n` instructions holds the distance to instruction `n`, cut to 16
      bits. */
  ghost predicate JumpsOk(codec: Codec, list: seq<Insn>, patched: map<nat, nat>)
    requires AllFormed(list)
  {
    forall k :: k in patched ==> JumpOk(codec, list, k, patched[k])
  }

  lemma {:induction false} BranchIsShort(codec: Codec, list: seq<Insn>, k: nat, n: nat)
    requires AllFormed(list) && k < n <= |list| && list[k].Branch?
    ensures Distance(codec, list, k, n) >= 0
  {
    StartNext(codec, list, k);
    if k + 1 < n { StartsIncrease(codec, list, k + 1, n); }
  }

  /** A patched jump goes to exactly the instruction that was emitted next, exactly when the distance fits 16 bits. */
  lemma {:induction false} PatchedJumpLands(codec: Codec, list: seq<Insn>, k: nat, n: nat)
    requires AllFormed(list) && JumpOk(codec, list, k, n)
    ensures Target(codec, list, k) == Start(codec, list, n) <==> Distance(codec, list, k, n) < 65536
    ensures Target(codec, list, k) == Start(codec, list, k + 1) + list[k].offset
    ensures Distance(codec, list, k, n) == Start(codec, list, n) - Start(codec, list, k + 1)
  {
    StartNext(codec, list, k);
    BranchIsShort(codec, list, k, n);
  }

  /** Emitting more moves nothing. */
  lemma {:induction false} StartsStay(codec: Codec, list: seq<Insn>, i: Insn, k: nat)
    requires AllFormed(list) && Formed(i) && k <= |list|
    ensures AllFormed(list + [i]) && Start(codec, list + [i], k) == Start(codec, list, k)
  {
    assert (list + [i])[..k] == list[..k];
  }

  lemma {:induction false} EmitKeepsJumps(codec: Codec, list: seq<Insn>, patched: map<nat, nat>, i: Insn)
    requires AllFormed(list) && Formed(i) && JumpsOk(codec, list, patched)
    ensures AllFormed(list + [i]) && JumpsOk(codec, list + [i], patched)
  {
    hide Start;
    forall k | k in patched ensures JumpOk(codec, list + [i], k, patched[k]) {
      StartsStay(codec, list, i, k);
      StartsStay(codec, list, i, patched[k]);
    }
  }

  /** The two operand bytes of the jump at `idx` replaced. */
  function PatchedCode(code: Bytes, idx: nat, offset: U16): Bytes
    requires idx + 3 <= |code|
  {
    code[..idx + 1] + Little16(offset) + code[idx + 3..]
  }

  lemma {:induction false} PatchLast(codec: Codec, front: Bytes, i: Insn, offset: U16)
    requires Formed(i) && i.Branch?
    ensures |Encode(codec, i)| == 3 && Formed(i.(offset := offset))
    ensures front + Encode(codec, i.(offset := offset)) == PatchedCode(front + Encode(codec, i), |front|, offset)
  {
    PatchAtEnd(front, Encode(codec, i), Encode(codec, i.(offset := offset)), offset);
  }

  /** Replacing the offset of a jump changes these two bytes and nothing else. */
  lemma {:induction false} PatchChangesOperand(codec: Codec, list: seq<Insn>, k: nat, offset: U16)
    requires AllFormed(list) && k < |list| && list[k].Branch?
    ensures var list' := list[k := list[k].(offset := offset)];
      && AllFormed(list') && Start(codec, list, k) + 3 <= |EncodeAll(codec, list)|
      && EncodeAll(codec, list') == PatchedCode(EncodeAll(codec, list), Start(codec, list, k), offset)
  {
    hide Encode, PatchedCode;
    var n := |list| - 1;
    var list' := list[k := list[k].(offset := offset)];
    var front, last := EncodeAll(codec, list[..n]), Encode(codec, list[n]);
    if k < n {
      assert list'[..n] == list[..n][k := list[k].(offset := offset)] && list'[n] == list[n];
      assert list[..n][..k] == list[..k];
      PatchChangesOperand(codec, list[..n], k, offset);
      PatchInFront(front, last, Start(codec, list, k), offset);
    } else {
      assert list'[..n] == list[..n];
      PatchLast(codec, front, list[n], offset);
    }
  }

  lemma {:induction false} PatchInFront(front: Bytes, last: Bytes, idx: nat, offset: U16)
    requires idx + 3 <= |front|
    ensures PatchedCode(front + last, idx, offset) == PatchedCode(front, idx, offset) + last
  {
    assert (front + last)[..idx + 1] == front[..idx + 1] && (front + last)[idx + 3..] == front[idx + 3..] + last;
  }

  lemma {:induction false} PatchAtEnd(front: Bytes, last: Bytes, last': Bytes, offset: U16)
    requires |last| == 3 && last' == [last[0]] + Little16(offset)
    ensures PatchedCode(front + last, |front|, offset) == front + last'
  {
    assert (front + last)[..|front| + 1] == front + [last[0]] && (front + last)[|front| + 3..] == [];
  }

  lemma {:induction false} PatchMovesNothing(codec: Codec, list: seq<Insn>, k: nat, offset: U16, j: nat)
    requires AllFormed(list) && k < |list| && list[k].Branch? && j <= |list|
    ensures var list' := list[k := list[k].(offset := offset)];
      AllFormed(list') && Start(codec, list', j) == Start(codec, list, j)
  {
    var list' := list[k := list[k].(offset := offset)];
    if j > 0 {
      PatchMovesNothing(codec, list, k, offset, j - 1);
      StartNext(codec, list, j - 1);
      StartNext(codec, list', j - 1);
    } else {
      assert list'[..0] == list[..0];
    }
  }

  lemma {:induction false} PatchKeepsJumps(codec: Codec, list: seq<Insn>, patched: map<nat, nat>, k: nat, offset: U16)
    requires AllFormed(list) && JumpsOk(codec, list, patched) && k < |list| && list[k].Branch?
    requires offset == Distance(codec, list, k, |list|) % 65536
    ensures var list' := list[k := list[k].(offset := offset)];
      AllFormed(list') && JumpsOk(codec, list', patched[k := |list|])
  {
    hide Start;
    var list' := list[k := list[k].(offset := offset)];
    forall j: nat | j <= |list| ensures AllFormed(list') && Start(codec, list', j) == Start(codec, list, j) {
      PatchMovesNothing(codec, list, k, offset, j);
    }
    var patched' := patched[k := |list|];
    forall j | j in patched' ensures JumpOk(codec, list', j, patched'[j]) {
      if j != k { assert JumpOk(codec, list, j, patched[j]); }
    }
  }

  // ---------- The chunk ----------

  ghost function Starts(codec: Codec, list: seq<Insn>): (s: seq<nat>)
    requires AllFormed(list)
    ensures |s| == |list| && forall k :: 0 <= k < |s| ==> s[k] == Start(codec, list, k)
  {
    seq(|list|, k requires 0 <= k < |list| => Start(codec, list, k))
  }

  lemma {:induction false} StartsAscend(codec: Codec, list: seq<Insn>)
    requires AllFormed(list)
    ensures Ascending(Starts(codec, list)) && forall x :: x in Starts(codec, list) ==> x < |EncodeAll(codec, list)|
  {
    hide Start;
    forall i, j | 0 <= i < j < |list| ensures Starts(codec, list)[i] < Starts(codec, list)[j] {
      StartsIncrease(codec, list, i, j);
    }
    forall k | 0 <= k < |list| ensures Start(codec, list, k) < |EncodeAll(codec, list)| {
      StartsIncrease(codec, list, k, |list|);
      StartOfAll(codec, list);
    }
  }

  lemma {:induction false} StartsOfLonger(codec: Codec, list: seq<Insn>, i: Insn)
    requires AllFormed(list) && Formed(i)
    ensures AllFormed(list + [i]) && EncodeAll(codec, list + [i]) == EncodeAll(codec, list) + Encode(codec, i)
    ensures Starts(codec, list + [i]) == Starts(codec, list) + [|EncodeAll(codec, list)|]
  {
    assert (list + [i])[..|list|] == list;
    forall k: nat | k <= |list| ensures Start(codec, list + [i], k) == Start(codec, list, k) {
      StartsStay(codec, list, i, k);
    }
    StartOfAll(codec, list);
  }

  lemma {:induction false} StartsOfPatched(codec: Codec, list: seq<Insn>, k: nat, offset: U16)
    requires AllFormed(list) && k < |list| && list[k].Branch?
    ensures var list' := list[k := list[k].(offset := offset)];
      AllFormed(list') && Starts(codec, list') == Starts(codec, list)
  {
    hide Start;
    forall j: nat | j <= |list| ensures var list' := list[k := list[k].(offset := offset)];
      AllFormed(list') && Start(codec, list', j) == Start(codec, list, j)
    {
      PatchMovesNothing(codec, list, k, offset, j);
    }
  }

  /** Some instruction owns every byte. */
  lemma {:induction false} OwnerExists(starts: seq<nat>, o: nat) returns (k: nat)
    requires starts != [] && starts[0] <= o
    ensures Owns(starts, k, o)
  {
    var n := |starts| - 1;
    if n == 0 || starts[n] <= o {
      k := n;
    } else {
      k := OwnerExists(starts[..n], o);
    }
  }

  class Chunk {
    const codec: Codec
    var code: Bytes
    var spans: seq<SourceSpan>
    var lastOp: nat
    // the instructions emitted so far, the span given for each, and when jumps were patched
    ghost var list: seq<Insn>
    ghost var given: seq<Span>
    ghost var patched: map<nat, nat>

    /** The bytes, the span table and the jumps are those of the instruction list. */
    ghost predicate Valid()
      reads this
    {
      && AllFormed(list) && code == EncodeAll(codec, list)
      && TableOk(spans, Starts(codec, list), given)
      && JumpsOk(codec, list, patched)
      && (list != [] ==> lastOp == Start(codec, list, |list| - 1))
    }

    constructor (codec: Codec)
      ensures Valid() && this.codec == codec && list == [] && given == [] && patched == map[]
    {
      this.codec := codec;
      code, spans, lastOp := [], [], 0;
      list, given, patched := [], [], map[];
    }

    method PushSpan(span: Span, start: nat)
      modifies this`spans
      ensures spans == Pushed(old(spans), span, start)
    {
      if !(spans != [] && spans[|spans| - 1].span == span) {
        spans := spans + [SourceSpan(span, start)];
      }
    }

    method PushOp(op: Op, span: Span) returns (idx: nat)
      modifies this`code, this`spans, this`lastOp
      ensures code == old(code) + [Code(op)] && idx == lastOp == |old(code)|
      ensures spans == Pushed(old(spans), span, lastOp)
    {
      lastOp := |code|;
      code := code + [Code(op)];
      PushSpan(span, lastOp);
      return lastOp;
    }

    method PushUvarint(data: U64)
      modifies this`code
      ensures code == old(code) + codec.enc(data)
    {
      code := code + codec.enc(data);
    }

    method PushU16(data: U16)
      modifies this`code
      ensures code == old(code) + Little16(data)
    {
      code := code + Little16(data);
    }

    /** Pushes what belongs to a closure: its blueprint, the packed count, and where to capture from. */
    method PushCapture(blueprint: U64, captureWith: bool, positions: seq<U64>)
      requires 2 * |positions| + 1 < TWO64
      modifies this`code
      ensures var count := PackedCount(|positions|, captureWith);
        code == old(code) + (codec.enc(blueprint) + codec.enc(count) + EncodeNumbers(codec, positions))
    {
      PushUvarint(blueprint);
      PushUvarint(PackedCount(|positions|, captureWith));
      ghost var before := code;
      for i := 0 to |positions|
        invariant code == before + EncodeNumbers(codec, positions[..i])
      {
        PushUvarint(positions[i]);
        assert positions[..i + 1][..i] == positions[..i];
      }
      assert positions[..|positions|] == positions;
    }

    method PushOperands(i: Insn)
      requires Formed(i)
      modifies this`code
      ensures code == old(code) + Operands(codec, i)
    {
      match i
      case Simple(_) =>
      case Operand(_, arg) => PushUvarint(arg);
      case Branch(_, offset) => PushU16(offset);
      case Coerce(_, kind) => code := code + [KindByte(kind)];
      case Capture(_, blueprint, captureWith, positions) => PushCapture(blueprint, captureWith, positions);
    }

    /** An instruction as the compiler emits it: the opcode with its span, then the operands. */
    method Emit(i: Insn, span: Span) returns (idx: nat)
      requires Valid() && Formed(i)
      modifies this
      ensures Valid() && list == old(list) + [i] && given == old(given) + [span] && patched == old(patched)
      ensures idx == Start(codec, list, |old(list)|)
    {
      hide Start, EncodeAll, TableOk, JumpsOk, Formed;
      idx := PushOp(i.op, span);
      PushOperands(i);
      StartsOfLonger(codec, list, i);
      StartsAscend(codec, list);
      PushedIsOk(old(spans), Starts(codec, list), given, span, idx);
      EmitKeepsJumps(codec, list, patched, i);
      assert code == old(code) + Encode(codec, i);
      assert Starts(codec, list + [i])[|list|] == idx;
      list, given := list + [i], given + [span];
    }

    /** Makes jump `k`, which starts at `idx`, go to the next instruction that will be emitted. */
    method PatchJump(idx: nat, ghost k: nat)
      requires Valid() && k < |list| && list[k].Branch? && idx == Start(codec, list, k)
      modifies this`code, this`list, this`patched
      ensures Valid() && patched == old(patched)[k := |list|]
      ensures list == old(list)[k := old(list)[k].(offset := Distance(codec, old(list), k, |old(list)|) % 65536)]
    {
      hide Start, EncodeAll, TableOk, JumpsOk, Formed;
      BranchIsShort(codec, list, k, |list|);
      StartOfAll(codec, list);
      var offset := (|code| - idx - 1 - 2) % 65536;
      PatchChangesOperand(codec, list, k, offset);
      StartsOfPatched(codec, list, k, offset);
      PatchKeepsJumps(codec, list, patched, k, offset);
      PatchMovesNothing(codec, list, k, offset, |list| - 1);
      code := code[..idx + 1] + Little16(offset) + code[idx + 3..];
      list, patched := list[k := list[k].(offset := offset)], patched[k := |list|];
    }

    /** The span given for the instruction that owns the byte at `offset`, operand bytes included. */
    method GetSpan(offset: nat) returns (span: Span)
      requires Valid() && list != []
      ensures exists k: nat :: Owns(Starts(codec, list), k, offset) && span == given[k]
      ensures forall k: nat :: Owns(Starts(codec, list), k, offset) ==> span == given[k]
    {
      var starts := Starts(codec, list);
      StartsAscend(codec, list);
      StartOfAll(codec, list);
      var found, index := SearchSpans(spans, offset);
      var j := if found then index else if index == 0 then 0 else index - 1;
      assert Covers(spans, j, offset);
      forall k: nat | Owns(starts, k, offset) ensures spans[j].span == given[k] {
        OwnerHasSpan(spans, starts, given, j, k, offset);
      }
      ghost var owner := OwnerExists(starts, offset);
      return spans[j].span;
    }

    /** The last opcode and its index. */
    method LastOp() returns (r: Option<(Op, nat)>)
      requires Valid()
      ensures r == if list == [] then None else Some((list[|list| - 1].op, Start(codec, list, |list| - 1)))
    {
      if code == [] {
        StartsAscend(codec, list);
        return None;
      }
      EncodedAt(codec, list, |list| - 1);
      OpcodeAt(codec, code, lastOp, list[|list| - 1]);
      return Some((OpOf(code[lastOp]), lastOp));
    }
  }
}

/** The encoding of instruction lists as bytes, and how it is read back. */
module Bytecode {
  import opened Prelude
  import opened Opcodes

  type U16 = n: nat | n < 65536

  // ---------- Variable-length numbers ----------

  const WINDOW: nat := 9

  /** An encoder, and a decoder of nine bytes that also tells how many it used. */
  datatype Codec = Codec(enc: U64 -> Bytes, dec: Bytes -> (U64, nat))

  /** Encodings have one to nine bytes, and are recognised whatever follows them. */
  ghost predicate SelfDelimiting(codec: Codec) {
    && (forall x: U64 :: 1 <= |codec.enc(x)| <= WINDOW)
    && (forall x: U64, w: Bytes :: |w| == WINDOW && codec.enc(x) <= w ==> codec.dec(w) == (x, |codec.enc(x)|))
  }

  /** There are `bs` at `idx`. */
  ghost predicate HasAt(code: Bytes, idx: nat, bs: Bytes) {
    idx + |bs| <= |code| && code[idx..idx + |bs|] == bs
  }

  function Zeros(n: nat): (z: Bytes)
    ensures |z| == n
  {
    seq(n, _ => 0)
  }

  /** Decodes the nine bytes at `idx`, or the rest of the code filled up with zeros. */
  function ReadUvarint(codec: Codec, code: Bytes, idx: nat): (U64, nat)
    requires idx <= |code|
  {
    if |code| - idx >= WINDOW then codec.dec(code[idx..idx + WINDOW])
    else codec.dec(code[idx..] + Zeros(WINDOW - (|code| - idx)))
  }

  /** What was written is read back, at the end of the code as well as inside. */
  lemma {:induction false} UvarintReadsBack(codec: Codec, code: Bytes, idx: nat, x: U64)
    requires SelfDelimiting(codec) && HasAt(code, idx, codec.enc(x))
    ensures ReadUvarint(codec, code, idx) == (x, |codec.enc(x)|)
  {
    var e := codec.enc(x);
    if |code| - idx >= WINDOW {
      assert code[idx..idx + WINDOW][..|e|] == code[idx..idx + |e|];
    } else {
      var w := code[idx..] + Zeros(WINDOW - (|code| - idx));
      assert w[..|e|] == code[idx..idx + |e|];
    }
  }

  function LittleEndian(x: nat, n: nat): (bs: Bytes)
    ensures |bs| == n
    decreases n
  {
    if n == 0 then [] else [x % 256] + LittleEndian(x / 256, n - 1)
  }

  function NumberOf(bs: Bytes): nat {
    if bs == [] then 0 else var low: nat := bs[0]; low + 256 * NumberOf(bs[1..])
  }

  function Pow256(n: nat): nat {
    if n == 0 then 1 else 256 * Pow256(n - 1)
  }

  lemma {:induction false} LittleEndianReadsBack(x: nat, n: nat)
    requires x < Pow256(n)
    ensures NumberOf(LittleEndian(x, n)) == x
    decreases n
  {
    if n > 0 {
      LittleEndianReadsBack(x / 256, n - 1);
      assert LittleEndian(x, n)[1..] == LittleEndian(x / 256, n - 1);
    }
  }

  /** Small numbers in one byte, others behind a marker. */
  const MARKED: Codec := Codec(
    x => if x < 128 then [x] else [255] + LittleEndian(x, 8),
    w => if |w| < WINDOW then (0, 0) else if w[0] < 128 then (w[0], 1) else (NumberOf(w[1..]) % TWO64, WINDOW))

  lemma {:induction false} WordHasEightBytes()
    ensures Pow256(8) == TWO64
  {
    assert Pow256(2) == 65536 && Pow256(4) == 0x1_0000_0000 && Pow256(6) == 0x1_0000_0000_0000;
  }

  /** There is a codec of the kind that is assumed of the library. */
  lemma {:induction false} MarkedIsSelfDelimiting()
    ensures SelfDelimiting(MARKED)
  {
    hide Pow256, LittleEndian, NumberOf;
    forall x: U64, w: Bytes | |w| == WINDOW && MARKED.enc(x) <= w ensures MARKED.dec(w) == (x, |MARKED.enc(x)|) {
      if x >= 128 {
        assert w == MARKED.enc(x) && w[1..] == LittleEndian(x, 8);
        WordHasEightBytes();
        LittleEndianReadsBack(x, 8);
      }
    }
  }

  function Little16(n: U16): Bytes {
    [n % 256, n / 256]
  }

  function ReadU16(code: Bytes, idx: nat): U16
    requires idx + 2 <= |code|
  {
    var low: nat, high: nat := code[idx], code[idx + 1];
    low + 256 * high
  }

  // ---------- Instructions ----------

  datatype Insn =
    | Simple(op: Op)
    | Operand(op: Op, arg: U64)
    | Branch(op: Op, offset: U16)
    | Coerce(op: Op, kind: CoercionKind)
    | Capture(op: Op, blueprint: U64, captureWith: bool, positions: seq<U64>)

  /** The instruction carries the operands that belong to its opcode. */
  predicate Formed(i: Insn) {
    match i
    case Simple(op) => ArgType(op) == NoArg
    case Operand(op, _) => ArgType(op) == Uvarint
    case Branch(op, _) => ArgType(op) == Fixed
    case Coerce(op, _) => op == CoerceToString
    case Capture(op, _, _, positions) =>
      (op == Closure || op == ThunkClosure || op == ThunkSuspended) && 2 * |positions| + 1 < TWO64
  }

  ghost predicate AllFormed(list: seq<Insn>) {
    forall k :: 0 <= k < |list| ==> Formed(list[k])
  }

  function PackedCount(n: nat, captureWith: bool): nat {
    2 * n + if captureWith then 1 else 0
  }

  function EncodeNumbers(codec: Codec, xs: seq<U64>): Bytes {
    if xs == [] then [] else EncodeNumbers(codec, xs[..|xs| - 1]) + codec.enc(xs[|xs| - 1])
  }

  function Operands(codec: Codec, i: Insn): Bytes
    requires Formed(i)
  {
    match i
    case Simple(_) => []
    case Operand(_, arg) => codec.enc(arg)
    case Branch(_, offset) => Little16(offset)
    case Coerce(_, kind) => [KindByte(kind)]
    case Capture(_, bp, w, ps) => codec.enc(bp) + codec.enc(PackedCount(|ps|, w)) + EncodeNumbers(codec, ps)
  }

  function Encode(codec: Codec, i: Insn): (bs: Bytes)
    requires Formed(i)
    ensures |bs| > 0
  {
    [Code(i.op)] + Operands(codec, i)
  }

  /** The number of an opcode tells the format of its instruction. */
  lemma {:induction false} Formats(i: Insn)
    requires Formed(i)
    ensures var b := Code(i.op);
      && (i.Operand? <==> b in {0, 19, 25, 28, 30, 36, 37, 40, 45}) && (i.Branch? <==> 13 <= b <= 18)
      && (i.Coerce? <==> b == 31) && (i.Capture? <==> 41 <= b <= 43)
  {
  }

  /** The bytes of an instruction: its number, and the operands behind it. */
  lemma {:induction false} Layout(codec: Codec, i: Insn)
    requires Formed(i)
    ensures var bs := Encode(codec, i);
      && bs[0] == Code(i.op)
      && (i.Simple? ==> |bs| == 1)
      && (i.Operand? ==> bs[1..] == codec.enc(i.arg))
      && (i.Branch? ==> bs[1..] == [i.offset % 256, i.offset / 256])
      && (i.Coerce? ==> bs[1..] == [(if i.kind.strong then 1 else 0) + if i.kind.importPaths then 2 else 0])
      && (i.Capture? ==>
            var count := 2 * |i.positions| + if i.captureWith then 1 else 0;
            bs[1..] == codec.enc(i.blueprint) + codec.enc(count) + EncodeNumbers(codec, i.positions))
  {
    hide EncodeNumbers, Code;
  }

  function EncodeAll(codec: Codec, list: seq<Insn>): Bytes
    requires AllFormed(list)
  {
    if list == [] then [] else EncodeAll(codec, list[..|list| - 1]) + Encode(codec, list[|list| - 1])
  }

  /** Where instruction `k` starts. */
  function Start(codec: Codec, list: seq<Insn>, k: nat): nat
    requires AllFormed(list) && k <= |list|
  {
    |EncodeAll(codec, list[..k])|
  }

  lemma {:induction false} StartNext(codec: Codec, list: seq<Insn>, k: nat)
    requires AllFormed(list) && k < |list|
    ensures Start(codec, list, k + 1) == Start(codec, list, k) + |Encode(codec, list[k])|
  {
    assert list[..k + 1][..k] == list[..k];
  }

  lemma {:induction false} StartsIncrease(codec: Codec, list: seq<Insn>, j: nat, k: nat)
    requires AllFormed(list) && j < k <= |list|
    ensures Start(codec, list, j) < Start(codec, list, k)
  {
    StartNext(codec, list, k - 1);
    if j < k - 1 { StartsIncrease(codec, list, j, k - 1); }
  }

  lemma {:induction false} HasAtInLonger(code: Bytes, more: Bytes, idx: nat, bs: Bytes)
    requires HasAt(code, idx, bs)
    ensures HasAt(code + more, idx, bs)
  {
    assert (code + more)[idx..idx + |bs|] == code[idx..idx + |bs|];
  }

  lemma {:induction false} HasAtEnd(code: Bytes, bs: Bytes)
    ensures HasAt(code + bs, |code|, bs)
  {
  }

  /** Each instruction lies at its start. */
  lemma {:induction false} EncodedAt(codec: Codec, list: seq<Insn>, k: nat)
    requires AllFormed(list) && k < |list|
    ensures HasAt(EncodeAll(codec, list), Start(codec, list, k), Encode(codec, list[k]))
  {
    hide HasAt, Encode, Formed;
    var n := |list| - 1;
    if k < n {
      EncodedAt(codec, list[..n], k);
      assert list[..n][..k] == list[..k] && list[..n][k] == list[k];
      HasAtInLonger(EncodeAll(codec, list[..n]), Encode(codec, list[n]), Start(codec, list, k), Encode(codec, list[k]));
    } else {
      HasAtEnd(EncodeAll(codec, list[..n]), Encode(codec, list[n]));
    }
  }

  // ---------- Disassembly ----------

  /** Instruction `k` is at `idx`, and nothing is said about what follows. */
  ghost predicate InsnAt(codec: Codec, code: Bytes, idx: nat, i: Insn) {
    Formed(i) && HasAt(code, idx, Encode(codec, i))
  }

  lemma {:induction false} HasPart(code: Bytes, idx: nat, a: Bytes, b: Bytes, c: Bytes)
    requires HasAt(code, idx, a + b + c)
    ensures HasAt(code, idx + |a|, b)
  {
    assert (a + b + c)[|a|..|a| + |b|] == b;
    SliceOfSlice(code, idx, idx + |a + b + c|, |a|, |a| + |b|);
  }

  lemma {:induction false} NumberAt(codec: Codec, code: Bytes, idx: nat, xs: seq<U64>, k: nat)
    requires HasAt(code, idx, EncodeNumbers(codec, xs)) && k < |xs|
    ensures HasAt(code, idx + |EncodeNumbers(codec, xs[..k])|, codec.enc(xs[k]))
  {
    var n := |xs| - 1;
    var front := EncodeNumbers(codec, xs[..n]);
    if k < n {
      HasPart(code, idx, [], front, codec.enc(xs[n]));
      assert [] + front + codec.enc(xs[n]) == EncodeNumbers(codec, xs);
      NumberAt(codec, code, idx, xs[..n], k);
      assert xs[..n][..k] == xs[..k];
    } else {
      HasPart(code, idx, front, codec.enc(xs[n]), []);
      assert front + codec.enc(xs[n]) + [] == EncodeNumbers(codec, xs);
    }
  }

  /** Reads `count` numbers one after the other. */
  method ReadNumbers(codec: Codec, code: Bytes, idx: nat, count: nat, ghost xs: seq<U64>)
      returns (end: nat, read: seq<U64>)
    requires SelfDelimiting(codec) && count == |xs| && HasAt(code, idx, EncodeNumbers(codec, xs))
    ensures end == idx + |EncodeNumbers(codec, xs)| && read == xs
  {
    end, read := idx, [];
    for i := 0 to count
      invariant end == idx + |EncodeNumbers(codec, xs[..i])| && read == xs[..i]
    {
      NumberAt(codec, code, idx, xs, i);
      UvarintReadsBack(codec, code, end, xs[i]);
      assert xs[..i + 1][..i] == xs[..i];
      var (x, size) := ReadUvarint(codec, code, end);
      end, read := end + size, read + [x];
    }
    assert xs[..|xs|] == xs;
  }

  lemma {:induction false} OpcodeAt(codec: Codec, code: Bytes, idx: nat, i: Insn)
    requires InsnAt(codec, code, idx, i)
    ensures idx < |code| && OpOf(code[idx]) == i.op && HasAt(code, idx + 1, Operands(codec, i))
  {
    var e := Encode(codec, i);
    assert code[idx] == code[idx..idx + |e|][0] == e[0];
    OpOfCode(i.op);
    HasPart(code, idx, [Code(i.op)], Operands(codec, i), []);
    assert [Code(i.op)] + Operands(codec, i) + [] == e;
  }

  lemma {:induction false} CapturePartsAt(codec: Codec, code: Bytes, idx: nat, i: Insn)
    requires Formed(i) && i.Capture? && HasAt(code, idx, Operands(codec, i))
    ensures var count := PackedCount(|i.positions|, i.captureWith);
      && HasAt(code, idx, codec.enc(i.blueprint))
      && HasAt(code, idx + |codec.enc(i.blueprint)|, codec.enc(count))
      && HasAt(code, idx + |codec.enc(i.blueprint)| + |codec.enc(count)|, EncodeNumbers(codec, i.positions))
  {
    var a, b := codec.enc(i.blueprint), codec.enc(PackedCount(|i.positions|, i.captureWith));
    var c := EncodeNumbers(codec, i.positions);
    HasPart(code, idx, a, b, c);
    HasPart(code, idx, [], a, b + c);
    assert [] + a + (b + c) == a + b + c;
    HasPart(code, idx, a + b, c, []);
    assert (a + b) + c + [] == a + b + c;
  }

  /** Decodes the closure operands at `idx`. */
  method ReadCapture(codec: Codec, code: Bytes, idx: nat, op: Op, ghost i: Insn) returns (insn: Insn, end: nat)
    requires SelfDelimiting(codec) && Formed(i) && i.Capture? && i.op == op && HasAt(code, idx, Operands(codec, i))
    ensures insn == i && end == idx + |Operands(codec, i)|
  {
    hide SelfDelimiting, HasAt, EncodeNumbers;
    CapturePartsAt(codec, code, idx, i);
    ghost var packed := PackedCount(|i.positions|, i.captureWith);
    UvarintReadsBack(codec, code, idx, i.blueprint);
    var (blueprint, size) := ReadUvarint(codec, code, idx);
    UvarintReadsBack(codec, code, idx + size, packed);
    var (count, size2) := ReadUvarint(codec, code, idx + size);
    var last, positions := ReadNumbers(codec, code, idx + size + size2, count / 2, i.positions);
    return Capture(op, blueprint, count % 2 == 1, positions), last;
  }

  /** Decodes the instruction at `idx`, and says how many bytes to skip to the next one. */
  method DisassembleOp(codec: Codec, code: Bytes, idx: nat, ghost i: Insn) returns (insn: Insn, size: nat)
    requires SelfDelimiting(codec) && InsnAt(codec, code, idx, i)
    ensures insn == i && size == |Encode(codec, i)|
  {
    hide SelfDelimiting, OpOf;
    OpcodeAt(codec, code, idx, i);
    var op := OpOf(code[idx]);
    match ArgType(op)
    case NoArg =>
      return Simple(op), 1;
    case Fixed =>
      return Branch(op, ReadU16(code, idx + 1)), 3;
    case Uvarint =>
      UvarintReadsBack(codec, code, idx + 1, i.arg);
      var (arg, n) := ReadUvarint(codec, code, idx + 1);
      return Operand(op, arg), 1 + n;
    case Custom =>
      if op == CoerceToString {
        return Coerce(op, Opcodes.KindOf(code[idx + 1])), 2;
      }
      var captured, end := ReadCapture(codec, code, idx + 1, op, i);
      return captured, end - idx;
  }

  /** Walking by sizes visits exactly the starts of the instructions, and recovers them all. */
  method DisassembleChunk(codec: Codec, code: Bytes, ghost list: seq<Insn>) returns (starts: seq<nat>, insns: seq<Insn>)
    requires SelfDelimiting(codec) && AllFormed(list) && code == EncodeAll(codec, list)
    ensures insns == list && |starts| == |list| && forall k :: 0 <= k < |list| ==> starts[k] == Start(codec, list, k)
  {
    hide SelfDelimiting, EncodeAll, Encode;
    var idx := 0;
    starts, insns := [], [];
    StartOfAll(codec, list);
    while idx < |code|
      invariant |insns| == |starts| <= |list| && idx == Start(codec, list, |insns|) && insns == list[..|insns|]
      invariant forall k :: 0 <= k < |insns| ==> starts[k] == Start(codec, list, k)
      decreases |list| - |insns|
    {
      ghost var k := |insns|;
      EncodedAt(codec, list, k);
      StartNext(codec, list, k);
      var insn, size := DisassembleOp(codec, code, idx, list[k]);
      starts, insns := starts + [idx], insns + [insn];
      idx := idx + size;
    }
    if |insns| < |list| { StartsIncrease(codec, list, |insns|, |list|); }
  }

  lemma {:induction false} StartOfAll(codec: Codec, list: seq<Insn>)
    requires AllFormed(list)
    ensures Start(codec, list, 0) == 0 && Start(codec, list, |list|) == |EncodeAll(codec, list)|
  {
    assert list[..|list|] == list;
  }
}

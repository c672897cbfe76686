/** The instruction set: opcodes, their operand formats, and packed operands. */
module Opcodes {
  import opened Prelude

  datatype Op =
    | Constant | Pop | Invert | Negate | Add | Sub | Mul | Div | Equal | Less | LessOrEq | More |
    MoreOrEq | Jump | JumpIfTrue | JumpIfFalse | JumpIfCatchable | JumpIfNotFound |
    JumpIfNoFinaliseRequest | Attrs | AttrsUpdate | AttrsSelect | AttrsTrySelect | HasAttr |
    ValidateClosedFormals | PushWith | PopWith | ResolveWith | List | Concat | Interpolate |
    CoerceToString | FindFile | ResolveHomePath | AssertBool | AssertAttrs | GetLocal | CloseScope |
    AssertFail | Call | GetUpvalue | Closure | ThunkClosure | ThunkSuspended | Force | Finalise |
    Return | Invalid

  const INVALID: Byte := 47

  /** The number of an opcode. */
  function Code(op: Op): (b: Byte)
    ensures b <= INVALID
  {
    match op
    case Constant => 0
    case Pop => 1
    case Invert => 2
    case Negate => 3
    case Add => 4
    case Sub => 5
    case Mul => 6
    case Div => 7
    case Equal => 8
    case Less => 9
    case LessOrEq => 10
    case More => 11
    case MoreOrEq => 12
    case Jump => 13
    case JumpIfTrue => 14
    case JumpIfFalse => 15
    case JumpIfCatchable => 16
    case JumpIfNotFound => 17
    case JumpIfNoFinaliseRequest => 18
    case Attrs => 19
    case AttrsUpdate => 20
    case AttrsSelect => 21
    case AttrsTrySelect => 22
    case HasAttr => 23
    case ValidateClosedFormals => 24
    case PushWith => 25
    case PopWith => 26
    case ResolveWith => 27
    case List => 28
    case Concat => 29
    case Interpolate => 30
    case CoerceToString => 31
    case FindFile => 32
    case ResolveHomePath => 33
    case AssertBool => 34
    case AssertAttrs => 35
    case GetLocal => 36
    case CloseScope => 37
    case AssertFail => 38
    case Call => 39
    case GetUpvalue => 40
    case Closure => 41
    case ThunkClosure => 42
    case ThunkSuspended => 43
    case Force => 44
    case Finalise => 45
    case Return => 46
    case Invalid => 47
  }

  function LowOp(b: Byte): Op {
    match b
    case 0 => Constant
    case 1 => Pop
    case 2 => Invert
    case 3 => Negate
    case 4 => Add
    case 5 => Sub
    case 6 => Mul
    case 7 => Div
    case 8 => Equal
    case 9 => Less
    case 10 => LessOrEq
    case 11 => More
    case 12 => MoreOrEq
    case 13 => Jump
    case 14 => JumpIfTrue
    case 15 => JumpIfFalse
    case _ => Invalid
  }

  function MidOp(b: Byte): Op {
    match b
    case 16 => JumpIfCatchable
    case 17 => JumpIfNotFound
    case 18 => JumpIfNoFinaliseRequest
    case 19 => Attrs
    case 20 => AttrsUpdate
    case 21 => AttrsSelect
    case 22 => AttrsTrySelect
    case 23 => HasAttr
    case 24 => ValidateClosedFormals
    case 25 => PushWith
    case 26 => PopWith
    case 27 => ResolveWith
    case 28 => List
    case 29 => Concat
    case 30 => Interpolate
    case 31 => CoerceToString
    case _ => Invalid
  }

  function HighOp(b: Byte): Op {
    match b
    case 32 => FindFile
    case 33 => ResolveHomePath
    case 34 => AssertBool
    case 35 => AssertAttrs
    case 36 => GetLocal
    case 37 => CloseScope
    case 38 => AssertFail
    case 39 => Call
    case 40 => GetUpvalue
    case 41 => Closure
    case 42 => ThunkClosure
    case 43 => ThunkSuspended
    case 44 => Force
    case 45 => Finalise
    case 46 => Return
    case _ => Invalid
  }

  /** Numbers from that of `Invalid` upwards are all invalid. */
  function OpOf(b: Byte): Op {
    if b < 16 then LowOp(b) else if b < 32 then MidOp(b) else HighOp(b)
  }

  lemma {:induction false} OpOfCode(op: Op)
    ensures OpOf(Code(op)) == op
  {
    var b := Code(op);
    if b < 16 {
    } else if b < 32 {
    } else {
    }
  }

  lemma {:induction false} CodeOfOp(b: Byte)
    ensures Code(OpOf(b)) == if b < INVALID then b else INVALID
  {
  }

  datatype OpArg = NoArg | Uvarint | Fixed | Custom

  function ArgType(op: Op): OpArg {
    match op
    case Constant | Attrs | PushWith | List | Interpolate | GetLocal | CloseScope | GetUpvalue | Finalise => Uvarint
    case Jump | JumpIfTrue | JumpIfFalse | JumpIfCatchable | JumpIfNotFound | JumpIfNoFinaliseRequest => Fixed
    case CoerceToString | Closure | ThunkClosure | ThunkSuspended => Custom
    case _ => NoArg
  }

  // ---------- Positions ----------

  /** Where an upvalue is captured from. */
  datatype Position = StackIndex(idx: U64) | DeferredLocal(idx: U64) | UpvalueIndex(idx: U64)

  const TWO62: nat := 0x4000_0000_0000_0000

  /** The index is shifted past a two-bit tag; its two highest bits are lost. */
  function Pack(p: Position): U64 {
    (p.idx * 4) % TWO64 + (match p case StackIndex(_) => 0 case DeferredLocal(_) => 1 case UpvalueIndex(_) => 2)
  }

  function RuntimeStackIndex(w: U64): Option<U64> {
    if w % 4 == 0 then Some(w / 4) else None
  }

  function RuntimeDeferredLocal(w: U64): Option<U64> {
    if w % 4 == 1 then Some(w / 4) else None
  }

  function RuntimeUpvalueIndex(w: U64): Option<U64> {
    if w % 4 == 2 then Some(w / 4) else None
  }

  /** The position that the three readers together see. */
  function Unpack(w: U64): Option<Position> {
    if RuntimeStackIndex(w).Some? then Some(StackIndex(RuntimeStackIndex(w).value))
    else if RuntimeDeferredLocal(w).Some? then Some(DeferredLocal(RuntimeDeferredLocal(w).value))
    else if RuntimeUpvalueIndex(w).Some? then Some(UpvalueIndex(RuntimeUpvalueIndex(w).value))
    else None
  }

  lemma {:induction false} ShiftLeft(i: nat)
    ensures (i * 4) % TWO64 == (i % TWO62) * 4
  {
    assert i == TWO62 * (i / TWO62) + i % TWO62;
    assert i * 4 == TWO64 * (i / TWO62) + (i % TWO62) * 4;
  }

  /** A packed position is read back, by exactly one of the readers, exactly when its index fits 62 bits. */
  lemma {:induction false} UnpackOfPack(p: Position)
    ensures Unpack(Pack(p)) == Some(p) <==> p.idx < TWO62
    ensures RuntimeStackIndex(Pack(p)).Some? <==> p.StackIndex?
    ensures RuntimeDeferredLocal(Pack(p)).Some? <==> p.DeferredLocal?
    ensures RuntimeUpvalueIndex(Pack(p)).Some? <==> p.UpvalueIndex?
    ensures p.idx < TWO62 ==>
      Pack(p) == 4 * p.idx + if p.StackIndex? then 0 else if p.DeferredLocal? then 1 else 2
  {
    ShiftLeft(p.idx);
  }

  // ---------- Coercions ----------

  datatype CoercionKind = CoercionKind(strong: bool, importPaths: bool)

  function KindByte(k: CoercionKind): Byte {
    (if k.strong then 1 else 0) + (if k.importPaths then 2 else 0)
  }

  function KindOf(b: Byte): CoercionKind {
    CoercionKind(b % 2 == 1, (b / 2) % 2 == 1)
  }
}

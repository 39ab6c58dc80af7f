/** The meaning of a DWARF expression (DWARF 4 section 2.5) as `dwarf_expression_eval` reads it. */
module ExpressionProgram {
  import opened Bytes
  import opened Common
  import opened Leb128
  import opened OpStreamClass
  import opened DwarfStackClass

  /**
   * The target: registers by DWARF number, memory by address and size. Oversized shifts are undefined in the source.
   */
  datatype Machine = Machine(
    wordSize: nat,
    bigEndian: bool,
    registerValue: int -> Result<nat>,
    readMemory: (nat, nat) -> Result<nat>,
    oversizedShift: (nat, nat) -> nat)
  {
    predicate Valid() {
      wordSize == 4 || wordSize == 8
    }

    function Modulus(): (r: nat)
      ensures r > 0
    {
      if wordSize == 4 then 0x1_0000_0000 else TWO_TO_64
    }

    function Word(x: int): (r: nat)
      ensures r < Modulus()
    {
      WordOf(x, Modulus())
    }

    function SignedWord(x: int): int {
      if Word(x) < Modulus() / 2 then Word(x) else Word(x) - Modulus()
    }
  }

  function And(a: nat, b: nat): nat
    decreases a
  {
    if a == 0 then 0 else (if a % 2 == 1 && b % 2 == 1 then 1 else 0) + 2 * And(a / 2, b / 2)
  }

  function Xor(a: nat, b: nat): nat
    decreases a + b
  {
    if a == 0 && b == 0 then 0 else (if a % 2 != b % 2 then 1 else 0) + 2 * Xor(a / 2, b / 2)
  }

  datatype UnaryOp = Abs | Neg | Not

  datatype BinaryOp = BitAnd | Div | Minus | Mod | Mul | BitOr | Plus | Shl | Shr | Shra | BitXor | Le | Ge | Eq | Lt | Gt | Ne

  datatype Op =
    | Push(value: nat)
    | PushAndDup(value: nat)
    | Dup
    | Drop
    | Pick(index: nat)
    | Swap
    | Rot
    | Deref(size: nat, addressSpace: bool)
    | Unary(unary: UnaryOp)
    | Binary(binary: BinaryOp)
    | PlusConst(addend: nat)
    | Jump(offset: int)
    | Branch(offset: int)
    | Nop

  datatype Decoded = Decoded(op: Op, next: nat) | Malformed(error: Error)

  function DecodeConst(m: Machine, bytes: seq<uint8>, pos: nat, size: nat, signed: bool): (d: Decoded)
    ensures d.Decoded? ==> pos <= d.next <= |bytes|
  {
    match UintAt(bytes, pos, size, m.bigEndian)
    case None => Malformed(EINVAL)
    case Some(v) => Decoded(Push(m.Word(if signed then SignExtended(v.value, size) else v.value)), v.next)
  }

  function DecodeLeb(m: Machine, bytes: seq<uint8>, pos: nat, signed: bool): (d: Decoded)
    ensures d.Decoded? ==> pos <= d.next <= |bytes|
  {
    match if signed then SlebAt(bytes, pos) else UlebAt(bytes, pos)
    case None => Malformed(EINVAL)
    case Some(v) => Decoded(Push(m.Word(v.value)), v.next)
  }

  function DecodeRegister(m: Machine, bytes: seq<uint8>, pos: nat, regnum: int): (d: Decoded)
    ensures d.Decoded? ==> pos <= d.next <= |bytes|
  {
    match m.registerValue(regnum)
    case Err(e) => Malformed(e)
    case Ok(r) =>
      match SlebAt(bytes, pos)
      case None => Malformed(EINVAL)
      case Some(v) => Decoded(Push(m.Word(r + v.value)), v.next)
  }

  /** DW_OP_bregx has no break, so its value is pushed and then duplicated. */
  function DecodeRegisterX(m: Machine, bytes: seq<uint8>, pos: nat): (d: Decoded)
    ensures d.Decoded? ==> pos <= d.next <= |bytes|
  {
    match SlebAt(bytes, pos)
    case None => Malformed(EINVAL)
    case Some(regnum) =>
      match DecodeRegister(m, bytes, regnum.next, m.SignedWord(regnum.value))
      case Malformed(e) => Malformed(e)
      case Decoded(op, next) => Decoded(PushAndDup(if op.Push? then op.value else 0), next)
  }

  function DecodeDerefSize(m: Machine, bytes: seq<uint8>, pos: nat, addressSpace: bool): (d: Decoded)
    ensures d.Decoded? ==> pos <= d.next <= |bytes|
  {
    match UintAt(bytes, pos, 1, m.bigEndian)
    case None => Malformed(EINVAL)
    case Some(v) => Decoded(Deref(v.value, addressSpace), v.next)
  }

  function DecodeJump(m: Machine, bytes: seq<uint8>, pos: nat, conditional: bool): (d: Decoded)
    ensures d.Decoded? ==> pos <= d.next <= |bytes|
  {
    match UintAt(bytes, pos, 2, m.bigEndian)
    case None => Malformed(EINVAL)
    case Some(v) =>
      var offset := SignExtended(v.value, 2);
      Decoded(if conditional then Branch(offset) else Jump(offset), v.next)
  }

  /** The opcode at `pos`. */
  function Decode(m: Machine, bytes: seq<uint8>, pos: nat): Decoded
    requires pos < |bytes|
  {
    var p := pos + 1;
    match bytes[pos]
    case 0x06 => Decoded(Deref(m.wordSize, false), p)
    case 0x08 => DecodeConst(m, bytes, p, 1, false)
    case 0x09 => DecodeConst(m, bytes, p, 1, true)
    case 0x0a => DecodeConst(m, bytes, p, 2, false)
    case 0x0b => DecodeConst(m, bytes, p, 2, true)
    case 0x0c => DecodeConst(m, bytes, p, 4, false)
    case 0x0d => DecodeConst(m, bytes, p, 4, true)
    case 0x0e => DecodeConst(m, bytes, p, 8, false)
    case 0x0f => DecodeConst(m, bytes, p, 8, true)
    case 0x10 => DecodeLeb(m, bytes, p, false)
    case 0x11 => DecodeLeb(m, bytes, p, true)
    case 0x12 => Decoded(Dup, p)
    case 0x13 => Decoded(Drop, p)
    case 0x14 => Decoded(Pick(1), p)
    case 0x15 => (
      match UintAt(bytes, p, 1, m.bigEndian)
      case None => Malformed(EINVAL)
      case Some(v) => Decoded(Pick(v.value), v.next))
    case 0x16 => Decoded(Swap, p)
    case 0x17 => Decoded(Rot, p)
    case 0x18 => Decoded(Deref(m.wordSize, true), p)
    case 0x19 => Decoded(Unary(Abs), p)
    case 0x1f => Decoded(Unary(Neg), p)
    case 0x20 => Decoded(Unary(Not), p)
    case 0x23 => (
      match UlebAt(bytes, p)
      case None => Malformed(EINVAL)
      case Some(v) => Decoded(PlusConst(m.Word(v.value)), v.next))
    case 0x28 => DecodeJump(m, bytes, p, true)
    case 0x2f => DecodeJump(m, bytes, p, false)
    case 0x92 => DecodeRegisterX(m, bytes, p)
    case 0x94 => DecodeDerefSize(m, bytes, p, false)
    case 0x95 => DecodeDerefSize(m, bytes, p, true)
    case 0x96 => Decoded(Nop, p)
    case opcode =>
      if 0x30 <= opcode < 0x50 then Decoded(Push(opcode - 0x30), p)
      else if 0x70 <= opcode < 0x90 then DecodeRegister(m, bytes, p, opcode - 0x70)
      else
        match BinaryOf(opcode)
        case None => Malformed(ENOTSUP)
        case Some(op) => Decoded(Binary(op), p)
  }

  function BinaryOf(opcode: uint8): Option<BinaryOp> {
    match opcode
    case 0x1a => Some(BitAnd)
    case 0x1b => Some(Div)
    case 0x1c => Some(Minus)
    case 0x1d => Some(Mod)
    case 0x1e => Some(Mul)
    case 0x21 => Some(BitOr)
    case 0x22 => Some(Plus)
    case 0x24 => Some(Shl)
    case 0x25 => Some(Shr)
    case 0x26 => Some(Shra)
    case 0x27 => Some(BitXor)
    case 0x29 => Some(Eq)
    case 0x2a => Some(Ge)
    case 0x2b => Some(Gt)
    case 0x2c => Some(Le)
    case 0x2d => Some(Lt)
    case 0x2e => Some(Ne)
    case _ => None
  }

  function UnaryValue(m: Machine, op: UnaryOp, v: nat): nat {
    match op
    case Abs => m.Word(if m.SignedWord(v) < 0 then -m.SignedWord(v) else v)
    case Neg => m.Word(0 - v)
    case Not => m.Word(m.Modulus() - 1 - v)
  }

  function Flag(b: bool): nat {
    if b then 1 else 0
  }

  /** The divisor's signed type does not matter: the dividend is unsigned, so the division is. */
  function Quotient(m: Machine, dividend: nat, divisor: nat): Result<nat> {
    if divisor == 0 then Err(EINVAL) else Ok(m.Word(dividend / divisor))
  }

  function Remainder(m: Machine, dividend: nat, divisor: nat): Result<nat> {
    if divisor == 0 then Err(EINVAL) else Ok(m.Word(dividend % divisor))
  }

  function ShiftedLeft(m: Machine, v: nat, shift: nat): nat {
    m.Word(if shift < 8 * m.wordSize then v * Pow2(shift) else m.oversizedShift(v, shift))
  }

  function ShiftedRight(m: Machine, v: nat, shift: nat): nat {
    m.Word(if shift < 8 * m.wordSize then v / Pow2(shift) else m.oversizedShift(v, shift))
  }

  function ShiftedRightSigned(m: Machine, v: nat, shift: nat): nat {
    m.Word(if shift < 8 * m.wordSize then m.SignedWord(v) / Pow2(shift) else m.oversizedShift(v, shift))
  }

  /** The result for the second value from the top and the top value. */
  function BinaryValue(m: Machine, op: BinaryOp, second: nat, top: nat): Result<nat> {
    match op
    case BitAnd => Ok(m.Word(And(second, top)))
    case Div => Quotient(m, second, top)
    case Minus => Ok(m.Word(second - top))
    case Mod => Remainder(m, second, top)
    case Mul => Ok(m.Word(second * top))
    case BitOr => Ok(m.Word(Or(second, top)))
    case Plus => Ok(m.Word(second + top))
    case Shl => Ok(ShiftedLeft(m, second, top))
    case Shr => Ok(ShiftedRight(m, second, top))
    case Shra => Ok(ShiftedRightSigned(m, second, top))
    case BitXor => Ok(m.Word(Xor(second, top)))
    case Le => Ok(Flag(second <= top))
    case Ge => Ok(Flag(second >= top))
    case Eq => Ok(Flag(second == top))
    case Lt => Ok(Flag(second < top))
    case Gt => Ok(Flag(second > top))
    case Ne => Ok(Flag(second != top))
  }

  datatype Outcome = Running(pos: nat, stack: seq<nat>) | Ended(result: Result<nat>)

  function Pushed(pos: nat, s: seq<nat>, v: nat): Outcome {
    if |s| < STACK_SIZE then Running(pos, s + [v]) else Ended(Err(EINTERNAL))
  }

  /** The values below the top `n`. */
  function Below(s: seq<nat>, n: nat): seq<nat>
    requires n <= |s|
  {
    s[..|s| - n]
  }

  /** The n-th value from the top, counted from 1. */
  function Top(s: seq<nat>, n: nat): nat
    requires 0 < n <= |s|
  {
    s[|s| - n]
  }

  function Dereference(m: Machine, size: nat, pos: nat, s: seq<nat>): Outcome {
    if size > m.wordSize then Ended(Err(EINVAL))
    else if s == [] then Ended(Err(EINTERNAL))
    else if size !in {1, 2, 4, 8} then Ended(Err(EINVAL))
    else
      match m.readMemory(Top(s, 1), size)
      case Err(e) => Ended(Err(e))
      case Ok(v) => Pushed(pos, Below(s, 1), m.Word(v))
  }

  function Jumped(bytes: seq<uint8>, pos: nat, offset: int, s: seq<nat>): Outcome {
    if 0 <= pos + offset <= |bytes| then Running(pos + offset, s) else Ended(Err(EINVAL))
  }

  /** The effect of an operation; `pos` is already behind it. */
  function Execute(m: Machine, bytes: seq<uint8>, op: Op, pos: nat, s: seq<nat>): Outcome {
    match op
    case Push(v) => Pushed(pos, s, v)
    case PushAndDup(v) =>
      if |s| >= STACK_SIZE then Ended(Err(EINTERNAL))
      else if |s| + 1 >= STACK_SIZE then Ended(Err(EINVAL))
      else Running(pos, s + [v, v])
    case Dup => if 0 < |s| < STACK_SIZE then Running(pos, s + [Top(s, 1)]) else Ended(Err(EINVAL))
    case Drop => if s == [] then Ended(Err(EINVAL)) else Running(pos, Below(s, 1))
    case Pick(i) =>
      if i >= |s| then Ended(Err(EINVAL))
      else Running(pos, if |s| < STACK_SIZE then s + [Top(s, i + 1)] else s)
    case Swap => if |s| < 2 then Ended(Err(EINVAL)) else Running(pos, Below(s, 2) + [Top(s, 1), Top(s, 2)])
    case Rot =>
      if |s| < 3 then Ended(Err(EINVAL)) else Running(pos, Below(s, 3) + [Top(s, 1), Top(s, 3), Top(s, 2)])
    case Deref(size, addressSpace) =>
      if !addressSpace then Dereference(m, size, pos, s)
      else if |s| < 2 then Ended(Err(EINVAL))
      else Dereference(m, size, pos, Below(s, 2) + [Top(s, 1)])
    case Unary(unary) => if s == [] then Ended(Err(EINTERNAL)) else Pushed(pos, Below(s, 1), UnaryValue(m, unary, Top(s, 1)))
    case Binary(binary) => (
      if |s| < 2 then Ended(Err(EINTERNAL))
      else match BinaryValue(m, binary, Top(s, 2), Top(s, 1))
        case Err(e) => Ended(Err(e))
        case Ok(v) => Pushed(pos, Below(s, 2), v))
    case PlusConst(addend) =>
      if s == [] then Ended(Err(EINTERNAL)) else Pushed(pos, Below(s, 1), m.Word(addend + Top(s, 1)))
    case Jump(offset) => Jumped(bytes, pos, offset, s)
    case Branch(offset) =>
      if s == [] then Ended(Err(EINTERNAL))
      else if Top(s, 1) != 0 then Jumped(bytes, pos, offset, Below(s, 1))
      else Running(pos, Below(s, 1))
    case Nop => Running(pos, s)
  }

  /** At the end of the program the top of the stack is the result. */
  function Step(m: Machine, bytes: seq<uint8>, pos: nat, s: seq<nat>): Outcome {
    if pos >= |bytes| then Ended(if s == [] then Err(EINVAL) else Ok(Top(s, 1)))
    else match Decode(m, bytes, pos)
      case Malformed(e) => Ended(Err(e))
      case Decoded(op, next) => Execute(m, bytes, op, next, s)
  }

  /** At most `n` steps. */
  function Run(m: Machine, bytes: seq<uint8>, o: Outcome, n: nat): Outcome
    decreases n
  {
    if n == 0 || o.Ended? then o else Run(m, bytes, Step(m, bytes, o.pos, o.stack), n - 1)
  }
}

/**
 * DWARF 4 section 2.5.1, operation by operation and opcode by opcode, on a stack of the same size and with the same
 * errors as the source has.
 */
module ExpressionReference {
  import opened Bytes
  import opened Common
  import opened DwarfStackClass
  import opened ExpressionProgram
  import opened Leb128

  /** The comparisons of the standard, on signed values. */
  predicate Compares(op: BinaryOp, a: int, b: int) {
    match op
    case Lt => a < b
    case Le => a <= b
    case Gt => a > b
    case Ge => a >= b
    case Eq => a == b
    case _ => a != b
  }

  function Magnitude(x: int): nat {
    if x < 0 then -x else x
  }

  /** Signed division, towards zero. */
  function Truncated(a: int, b: int): int {
    if b == 0 then 0
    else if (a < 0) == (b < 0) then Magnitude(a) / Magnitude(b) else -(Magnitude(a) / Magnitude(b))
  }

  /** Bits that are moved out of the word are lost; how far a shift can go is left to the machine. */
  function Shifted(m: Machine, second: nat, top: nat, within: int): Result<nat> {
    Ok(m.Word(if top < 8 * m.wordSize then within else m.oversizedShift(second, top)))
  }

  function StandardBinary(m: Machine, op: BinaryOp, second: nat, top: nat): Result<nat> {
    match op
    case BitAnd => Ok(m.Word(And(second, top)))
    case BitOr => Ok(m.Word(Or(second, top)))
    case BitXor => Ok(m.Word(Xor(second, top)))
    case Plus => Ok(m.Word(second + top))
    case Minus => Ok(m.Word(second - top))
    case Mul => Ok(m.Word(second * top))
    case Div => if top == 0 then Err(EINVAL) else Ok(m.Word(Truncated(m.SignedWord(second), m.SignedWord(top))))
    case Mod => if top == 0 then Err(EINVAL) else Ok(m.Word(second % top))
    case Shl => Shifted(m, second, top, second * Pow2(top))
    case Shr => Shifted(m, second, top, second / Pow2(top))
    case Shra => Shifted(m, second, top, m.SignedWord(second) / Pow2(top))
    case _ => Ok(if Compares(op, m.SignedWord(second), m.SignedWord(top)) then 1 else 0)
  }

  function StandardUnary(m: Machine, op: UnaryOp, v: nat): nat {
    match op
    case Abs => m.Word(Magnitude(m.SignedWord(v)))
    case Neg => m.Word(0 - v)
    case Not => m.Word(m.Modulus() - 1 - v)
  }

  /** `v` on top of `s`. */
  function Grown(pos: nat, s: seq<nat>, v: nat): Outcome {
    if |s| == STACK_SIZE then Ended(Err(EINTERNAL)) else Running(pos, s + [v])
  }

  /** The value at the address on top takes the place of the address. */
  function Fetched(m: Machine, size: nat, pos: nat, s: seq<nat>): Outcome {
    if size > m.wordSize then Ended(Err(EINVAL))
    else if s == [] then Ended(Err(EINTERNAL))
    else if size != 1 && size != 2 && size != 4 && size != 8 then Ended(Err(EINVAL))
    else
      var v := m.readMemory(s[|s| - 1], size);
      if v.Err? then Ended(Err(v.error)) else Running(pos, s[..|s| - 1] + [m.Word(v.value)])
  }

  function MovedTo(bytes: seq<uint8>, target: int, s: seq<nat>): Outcome {
    if target < 0 || target > |bytes| then Ended(Err(EINVAL)) else Running(target, s)
  }

  /** DW_OP_bregx pushes one value, and DW_OP_pick one or none. */
  function StandardExecute(m: Machine, bytes: seq<uint8>, op: Op, pos: nat, s: seq<nat>): Outcome {
    var n := |s|;
    match op
    case Push(v) => Grown(pos, s, v)
    case PushAndDup(v) => Grown(pos, s, v)
    case Dup => if n == 0 || n >= STACK_SIZE then Ended(Err(EINVAL)) else Running(pos, s + [s[n - 1]])
    case Drop => if n == 0 then Ended(Err(EINVAL)) else Running(pos, s[..n - 1])
    case Pick(i) => if i >= n then Ended(Err(EINVAL)) else Grown(pos, s, s[n - 1 - i])
    case Swap => if n < 2 then Ended(Err(EINVAL)) else Running(pos, s[..n - 2] + [s[n - 1], s[n - 2]])
    case Rot => if n < 3 then Ended(Err(EINVAL)) else Running(pos, s[..n - 3] + [s[n - 1], s[n - 3], s[n - 2]])
    case Deref(size, false) => Fetched(m, size, pos, s)
    case Deref(size, true) =>
      if n < 2 then Ended(Err(EINVAL)) else Fetched(m, size, pos, s[..n - 2] + [s[n - 1]])
    case Unary(unary) =>
      if n == 0 then Ended(Err(EINTERNAL)) else Running(pos, s[..n - 1] + [StandardUnary(m, unary, s[n - 1])])
    case Binary(binary) =>
      if n < 2 then Ended(Err(EINTERNAL))
      else
        var v := StandardBinary(m, binary, s[n - 2], s[n - 1]);
        if v.Err? then Ended(Err(v.error)) else Running(pos, s[..n - 2] + [v.value])
    case PlusConst(addend) =>
      if n == 0 then Ended(Err(EINTERNAL)) else Running(pos, s[..n - 1] + [m.Word(s[n - 1] + addend)])
    case Jump(offset) => MovedTo(bytes, pos + offset, s)
    case Branch(offset) =>
      if n == 0 then Ended(Err(EINTERNAL))
      else if s[n - 1] == 0 then Running(pos, s[..n - 1])
      else MovedTo(bytes, pos + offset, s[..n - 1])
    case Nop => Running(pos, s)
  }

  /** The number in the next `size` bytes. */
  function FieldAt(m: Machine, bytes: seq<uint8>, pos: nat, size: nat, signed: bool): (r: Option<int>)
    ensures r.Some? && !signed ==> r.value >= 0
  {
    if pos + size > |bytes| then None
    else
      var field := bytes[pos..pos + size];
      var u := if m.bigEndian then BigEndian(field) else LittleEndian(field);
      Some(if signed && 2 * u >= Power(size) then u - Power(size) else u)
  }

  function Constant(m: Machine, bytes: seq<uint8>, pos: nat, size: nat, signed: bool): Decoded {
    var v := FieldAt(m, bytes, pos, size, signed);
    if v.None? then Malformed(EINVAL) else Decoded(Push(m.Word(v.value)), pos + size)
  }

  /** A register and a signed offset; with `x` the operation of DW_OP_bregx. */
  function BasePlus(m: Machine, bytes: seq<uint8>, pos: nat, regnum: nat, x: bool): Decoded {
    var r, offset := m.registerValue(regnum), Signed(From(bytes, pos));
    if r.Err? then Malformed(r.error)
    else if offset.Err? then Malformed(EINVAL)
    else
      var sum := m.Word(r.value + offset.value.value);
      Decoded(if x then PushAndDup(sum) else Push(sum), pos + offset.value.size)
  }

  /** The operations without operands. */
  function Plain(m: Machine, opcode: uint8): Option<Op> {
    if opcode == 0x06 then Some(Deref(m.wordSize, false))
    else if opcode == 0x12 then Some(Dup)
    else if opcode == 0x13 then Some(Drop)
    else if opcode == 0x14 then Some(Pick(1))
    else if opcode == 0x16 then Some(Swap)
    else if opcode == 0x17 then Some(Rot)
    else if opcode == 0x18 then Some(Deref(m.wordSize, true))
    else if opcode == 0x19 then Some(Unary(Abs))
    else if opcode == 0x1f then Some(Unary(Neg))
    else if opcode == 0x20 then Some(Unary(Not))
    else if opcode == 0x96 then Some(Nop)
    else if 0x1a <= opcode <= 0x1e then Some(Binary([BitAnd, Div, Minus, Mod, Mul][opcode - 0x1a]))
    else if 0x21 <= opcode <= 0x22 then Some(Binary([BitOr, Plus][opcode - 0x21]))
    else if 0x24 <= opcode <= 0x27 then Some(Binary([Shl, Shr, Shra, BitXor][opcode - 0x24]))
    else if 0x29 <= opcode <= 0x2e then Some(Binary([Eq, Ge, Gt, Le, Lt, Ne][opcode - 0x29]))
    else None
  }

  /** The operations that the source supports; the register of DW_OP_bregx is an unsigned number. */
  function StandardDecode(m: Machine, bytes: seq<uint8>, pos: nat): Decoded
    requires pos < |bytes|
  {
    var opcode, p := bytes[pos], pos + 1;
    if 0x30 <= opcode <= 0x4f then Decoded(Push(opcode - 0x30), p)
    else if 0x70 <= opcode <= 0x8f then BasePlus(m, bytes, p, opcode - 0x70, false)
    else if 0x08 <= opcode <= 0x0f then Constant(m, bytes, p, [1, 2, 4, 8][(opcode - 0x08) / 2], opcode % 2 == 1)
    else if opcode in {0x10, 0x23, 0x92} then
      var u := Unsigned(From(bytes, p));
      if u.Err? then Malformed(EINVAL)
      else
        var v: nat, next := u.value.value, p + u.value.size;
        if opcode == 0x92 then BasePlus(m, bytes, next, v, true)
        else Decoded(if opcode == 0x10 then Push(m.Word(v)) else PlusConst(m.Word(v)), next)
    else if opcode == 0x11 then
      var v := Signed(From(bytes, p));
      if v.Err? then Malformed(EINVAL) else Decoded(Push(m.Word(v.value.value)), p + v.value.size)
    else if opcode in {0x28, 0x2f} then
      var offset := FieldAt(m, bytes, p, 2, true);
      if offset.None? then Malformed(EINVAL)
      else Decoded(if opcode == 0x28 then Branch(offset.value) else Jump(offset.value), p + 2)
    else if opcode in {0x15, 0x94, 0x95} then
      if p >= |bytes| then Malformed(EINVAL)
      else
        var v := bytes[p];
        Decoded(if opcode == 0x15 then Pick(v) else Deref(v, opcode == 0x95), p + 1)
    else
      var op := Plain(m, opcode);
      if op.None? then Malformed(ENOTSUP) else Decoded(op.value, p)
  }

  function Bit(x: nat, i: nat): bool {
    if i == 0 then x % 2 == 1 else Bit(x / 2, i - 1)
  }

  /** The operators on bits work on each bit. */
  lemma {:induction false} BitsOf(a: nat, b: nat, i: nat)
    ensures Bit(And(a, b), i) == (Bit(a, i) && Bit(b, i))
    ensures Bit(Or(a, b), i) == (Bit(a, i) || Bit(b, i))
    ensures Bit(Xor(a, b), i) == (Bit(a, i) != Bit(b, i))
  {
    LowBits(a, b);
    if i > 0 {
      BitsOf(a / 2, b / 2, i - 1);
    }
  }

  lemma LowBits(a: nat, b: nat)
    ensures And(a, b) % 2 == (if a % 2 == 1 && b % 2 == 1 then 1 else 0) && And(a, b) / 2 == And(a / 2, b / 2)
    ensures Or(a, b) % 2 == (if a % 2 == 1 || b % 2 == 1 then 1 else 0) && Or(a, b) / 2 == Or(a / 2, b / 2)
    ensures Xor(a, b) % 2 == (if a % 2 != b % 2 then 1 else 0) && Xor(a, b) / 2 == Xor(a / 2, b / 2)
  {
    hide And, Or, Xor;
    Unfolded(a, b);
    Doubled(if a % 2 == 1 && b % 2 == 1 then 1 else 0, And(a / 2, b / 2));
    Doubled(if a % 2 == 1 || b % 2 == 1 then 1 else 0, Or(a / 2, b / 2));
    Doubled(if a % 2 != b % 2 then 1 else 0, Xor(a / 2, b / 2));
  }

  lemma Doubled(bit: nat, y: nat)
    requires bit < 2
    ensures (bit + 2 * y) % 2 == bit && (bit + 2 * y) / 2 == y
  {
  }

  lemma Unfolded(a: nat, b: nat)
    ensures And(a, b) == (if a % 2 == 1 && b % 2 == 1 then 1 else 0) + 2 * And(a / 2, b / 2)
    ensures Or(a, b) == (if a % 2 == 1 || b % 2 == 1 then 1 else 0) + 2 * Or(a / 2, b / 2)
    ensures Xor(a, b) == (if a % 2 != b % 2 then 1 else 0) + 2 * Xor(a / 2, b / 2)
  {
    assert And(0, b / 2) == 0 && Or(0, 0) == 0 && Xor(0, 0) == 0;
  }

  /** A word is the number that is left modulo the number of words, and its signed reading is in two's complement. */
  lemma WordsOf(m: Machine, x: int)
    ensures
      var n := if m.wordSize == 4 then 0x1_0000_0000 else TWO_TO_64;
      && m.Modulus() == n && m.Word(x) == x % n
      && -(n / 2) <= m.SignedWord(x) < n / 2 && (m.SignedWord(x) == m.Word(x) || m.SignedWord(x) == m.Word(x) - n)
  {
  }
}

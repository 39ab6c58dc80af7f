/** Compiled expression trees, and which expressions come to an end. */
module ExpressionTrees {
  import opened Bytes
  import opened Common
  import opened Leb128
  import opened OpStreamClass
  import opened DwarfStackClass
  import opened ExpressionProgram
  import opened ExpressionEvaluation

  datatype Expr =
    | Lit(n: nat)
    | Fixed(value: int, size: nat, signed: bool)
    | Uleb(uvalue: nat)
    | Sleb(svalue: int)
    | RegisterPlus(regnum: nat, offset: int)
    | Un(unary: UnaryOp, arg: Expr)
    | Bin(binary: BinaryOp, left: Expr, right: Expr)

  /** Operators that have a value for all operands. */
  predicate Total(op: BinaryOp) {
    !op.Div? && !op.Mod? && !op.Shl? && !op.Shr? && !op.Shra?
  }

  /** It has an encoding, and the registers in it have values. */
  predicate Encodable(m: Machine, e: Expr) {
    match e
    case Lit(n) => n < 32
    case Fixed(v, size, signed) =>
      size in {1, 2, 4, 8} && if signed then 0 - FieldLimit(size) / 2 <= v < FieldLimit(size) / 2 else 0 <= v < FieldLimit(size)
    case Uleb(v) => v < TWO_TO_64
    case Sleb(v) => -OFF_MAX - 1 <= v <= OFF_MAX
    case RegisterPlus(regnum, offset) => regnum < 32 && -OFF_MAX - 1 <= offset <= OFF_MAX && m.registerValue(regnum).Ok?
    case Un(_, arg) => Encodable(m, arg)
    case Bin(op, left, right) => Total(op) && Encodable(m, left) && Encodable(m, right)
  }

  /** The value of a tree. Sums, differences, products and negations are those of unbounded integers. */
  function Value(m: Machine, e: Expr): int
    requires Encodable(m, e)
  {
    match e
    case Lit(n) => n
    case Fixed(v, _, _) => v
    case Uleb(v) => v
    case Sleb(v) => v
    case RegisterPlus(regnum, offset) => m.registerValue(regnum).value + offset
    case Un(op, arg) => (
      var v := Value(m, arg);
      match op
      case Neg => -v
      case Not => -v - 1
      case Abs => if m.SignedWord(v) < 0 then -m.SignedWord(v) else m.SignedWord(v))
    case Bin(op, left, right) =>
      var a, b := Value(m, left), Value(m, right);
      match op
      case Plus => a + b
      case Minus => a - b
      case Mul => a * b
      case BitAnd => And(m.Word(a), m.Word(b))
      case BitOr => Or(m.Word(a), m.Word(b))
      case BitXor => Xor(m.Word(a), m.Word(b))
      case Le => Flag(m.Word(a) <= m.Word(b))
      case Ge => Flag(m.Word(a) >= m.Word(b))
      case Eq => Flag(m.Word(a) == m.Word(b))
      case Lt => Flag(m.Word(a) < m.Word(b))
      case Gt => Flag(m.Word(a) > m.Word(b))
      case _ => Flag(m.Word(a) != m.Word(b))
  }

  function Max(a: nat, b: nat): nat {
    if a > b then a else b
  }

  /** How many values the evaluation adds to the stack at most. */
  function Need(e: Expr): (n: nat)
    ensures n > 0
  {
    match e
    case Un(_, arg) => Need(arg)
    case Bin(_, left, right) => Max(Need(left), Need(right) + 1)
    case _ => 1
  }

  function OpCount(e: Expr): nat {
    match e
    case Un(_, arg) => OpCount(arg) + 1
    case Bin(_, left, right) => OpCount(left) + OpCount(right) + 1
    case _ => 1
  }

  // Postfix code

  function UnaryCode(op: UnaryOp): uint8 {
    match op
    case Abs => 0x19
    case Neg => 0x1f
    case Not => 0x20
  }

  function BinaryCode(op: BinaryOp): uint8 {
    match op
    case BitAnd => 0x1a
    case Div => 0x1b
    case Minus => 0x1c
    case Mod => 0x1d
    case Mul => 0x1e
    case BitOr => 0x21
    case Plus => 0x22
    case Shl => 0x24
    case Shr => 0x25
    case Shra => 0x26
    case BitXor => 0x27
    case Eq => 0x29
    case Ge => 0x2a
    case Gt => 0x2b
    case Le => 0x2c
    case Lt => 0x2d
    case Ne => 0x2e
  }

  function FixedCode(size: nat, signed: bool): uint8 {
    var u: uint8 := match size
      case 1 => 0x08
      case 2 => 0x0a
      case 4 => 0x0c
      case _ => 0x0e;
    if signed then u + 1 else u
  }

  function Raw(v: int, size: nat): int {
    if v < 0 then v + FieldLimit(size) else v
  }

  /** The opcode bytes of an operand-free or constant node. */
  function LeafCode(m: Machine, e: Expr): seq<uint8>
    requires Encodable(m, e) && !e.Un? && !e.Bin?
  {
    match e
    case Lit(n) => [0x30 + n]
    case Fixed(v, size, signed) => [FixedCode(size, signed)] + Field(Raw(v, size), size, m.bigEndian)
    case Uleb(v) => [0x10] + EncodeUnsigned(v)
    case Sleb(v) => [0x11] + EncodeSigned(v)
    case RegisterPlus(regnum, offset) => [0x70 + regnum] + EncodeSigned(offset)
  }

  function Code(m: Machine, e: Expr): seq<uint8>
    requires Encodable(m, e)
  {
    match e
    case Un(op, arg) => Code(m, arg) + [UnaryCode(op)]
    case Bin(op, left, right) => Code(m, left) + Code(m, right) + [BinaryCode(op)]
    case _ => LeafCode(m, e)
  }

  // Decoding the code

  lemma RawRead(m: Machine, v: int, size: nat, signed: bool)
    requires Encodable(m, Fixed(v, size, signed))
    ensures 0 <= Raw(v, size) < FieldLimit(size)
    ensures (if signed then SignExtended(Raw(v, size), size) else Raw(v, size)) == v
  {
  }

  lemma FixedDecodes(m: Machine, bytes: seq<uint8>, pos: nat, v: int, size: nat, signed: bool)
    requires Encodable(m, Fixed(v, size, signed)) && Raw(v, size) >= 0
    requires Stands(bytes, pos, Field(Raw(v, size), size, m.bigEndian))
    ensures DecodeConst(m, bytes, pos, size, signed) == Decoded(Push(m.Word(v)), pos + size)
  {
    hide UintAt, Field, FieldLimit, SignExtended, Raw, Machine.Word, Stands;
    RawRead(m, v, size, signed);
    UintStands(bytes, pos, Raw(v, size), size, m.bigEndian);
  }

  lemma LebDecodes(m: Machine, bytes: seq<uint8>, pos: nat, v: int, signed: bool)
    requires (signed || v >= 0) && Encodable(m, if signed then Sleb(v) else Uleb(v))
    requires Stands(bytes, pos, if signed then EncodeSigned(v) else EncodeUnsigned(v))
    ensures DecodeLeb(m, bytes, pos, signed) ==
      Decoded(Push(m.Word(v)), pos + |if signed then EncodeSigned(v) else EncodeUnsigned(v)|)
  {
    hide UlebAt, SlebAt, EncodeSigned, EncodeUnsigned, Stands;
    if signed {
      SlebStands(bytes, pos, v);
    } else {
      UlebStands(bytes, pos, v);
    }
  }

  lemma ConstantOpcodes(m: Machine, bytes: seq<uint8>, pos: nat)
    requires pos < |bytes|
    ensures 0x30 <= bytes[pos] < 0x50 ==> Decode(m, bytes, pos) == Decoded(Push(bytes[pos] - 0x30), pos + 1)
    ensures 0x70 <= bytes[pos] < 0x90 ==> Decode(m, bytes, pos) == DecodeRegister(m, bytes, pos + 1, bytes[pos] - 0x70)
    ensures bytes[pos] == 0x10 ==> Decode(m, bytes, pos) == DecodeLeb(m, bytes, pos + 1, false)
    ensures bytes[pos] == 0x11 ==> Decode(m, bytes, pos) == DecodeLeb(m, bytes, pos + 1, true)
    ensures forall size, signed :: size in {1, 2, 4, 8} && bytes[pos] == FixedCode(size, signed) ==>
      Decode(m, bytes, pos) == DecodeConst(m, bytes, pos + 1, size, signed)
  {
    hide DecodeConst, DecodeLeb, DecodeRegister, DecodeRegisterX, DecodeDerefSize, DecodeJump;
  }

  lemma FixedLeafDecodes(m: Machine, bytes: seq<uint8>, pos: nat, v: int, size: nat, signed: bool)
    requires m.Valid() && Encodable(m, Fixed(v, size, signed))
      && Stands(bytes, pos, LeafCode(m, Fixed(v, size, signed)))
    ensures pos < |bytes| && Decode(m, bytes, pos) == Decoded(Push(m.Word(v)), pos + 1 + size)
  {
    hide Decode, DecodeConst, Field, FixedCode, Stands, FieldLimit, SignExtended, Machine.Word;
    RawRead(m, v, size, signed);
    StandsParts(bytes, pos, [FixedCode(size, signed)], Field(Raw(v, size), size, m.bigEndian));
    StandsByte(bytes, pos, FixedCode(size, signed));
    ConstantOpcodes(m, bytes, pos);
    FixedDecodes(m, bytes, pos + 1, v, size, signed);
  }

  lemma LebLeafDecodes(m: Machine, bytes: seq<uint8>, pos: nat, v: int, signed: bool)
    requires m.Valid() && (signed || v >= 0) && Encodable(m, if signed then Sleb(v) else Uleb(v))
    requires Stands(bytes, pos, if signed then [0x11] + EncodeSigned(v) else [0x10] + EncodeUnsigned(v))
    ensures pos < |bytes|
    ensures Decode(m, bytes, pos) ==
      Decoded(Push(m.Word(v)), pos + 1 + |if signed then EncodeSigned(v) else EncodeUnsigned(v)|)
  {
    hide Decode, DecodeLeb, EncodeSigned, EncodeUnsigned, Stands, Machine.Word;
    var code: seq<uint8> := if signed then EncodeSigned(v) else EncodeUnsigned(v);
    StandsParts(bytes, pos, [if signed then 0x11 else 0x10], code);
    StandsByte(bytes, pos, if signed then 0x11 else 0x10);
    ConstantOpcodes(m, bytes, pos);
    LebDecodes(m, bytes, pos + 1, v, signed);
  }

  /** DW_OP_breg0 and the following: the register plus the offset. */
  lemma RegisterLeafDecodes(m: Machine, bytes: seq<uint8>, pos: nat, regnum: nat, offset: int)
    requires m.Valid() && Encodable(m, RegisterPlus(regnum, offset))
    requires Stands(bytes, pos, [0x70 + regnum] + EncodeSigned(offset))
    ensures pos < |bytes|
    ensures Decode(m, bytes, pos) ==
      Decoded(Push(m.Word(m.registerValue(regnum).value + offset)), pos + 1 + |EncodeSigned(offset)|)
  {
    hide Decode, EncodeSigned, SlebAt, Stands, Machine.Word;
    StandsParts(bytes, pos, [0x70 + regnum], EncodeSigned(offset));
    StandsByte(bytes, pos, 0x70 + regnum);
    ConstantOpcodes(m, bytes, pos);
    SlebStands(bytes, pos + 1, offset);
  }

  lemma LeafDecodes(m: Machine, bytes: seq<uint8>, pos: nat, e: Expr)
    requires m.Valid() && Encodable(m, e) && !e.Un? && !e.Bin? && Stands(bytes, pos, LeafCode(m, e))
    ensures pos < |bytes| && Decode(m, bytes, pos) == Decoded(Push(m.Word(Value(m, e))), pos + |LeafCode(m, e)|)
  {
    hide Decode, EncodeSigned, EncodeUnsigned, Field, FixedCode, Stands;
    match e
    case Lit(n) =>
      StandsByte(bytes, pos, 0x30 + n);
      ConstantOpcodes(m, bytes, pos);
    case Fixed(v, size, signed) => FixedLeafDecodes(m, bytes, pos, v, size, signed);
    case RegisterPlus(regnum, offset) => RegisterLeafDecodes(m, bytes, pos, regnum, offset);
    case Uleb(v) => LebLeafDecodes(m, bytes, pos, v, false);
    case Sleb(v) => LebLeafDecodes(m, bytes, pos, v, true);
  }

  lemma OperatorDecodes(m: Machine, bytes: seq<uint8>, pos: nat)
    requires pos < |bytes|
    ensures forall op :: bytes[pos] == UnaryCode(op) ==> Decode(m, bytes, pos) == Decoded(Unary(op), pos + 1)
    ensures forall op :: bytes[pos] == BinaryCode(op) ==> Decode(m, bytes, pos) == Decoded(Binary(op), pos + 1)
  {
    hide DecodeConst, DecodeLeb, DecodeRegister, DecodeRegisterX, DecodeDerefSize, DecodeJump, Machine.Word, UintAt, UlebAt;
  }

  // Arithmetic modulo the word size

  lemma WordShift(m: Machine, x: int, k: int)
    ensures m.Word(x + k * m.Modulus()) == m.Word(x)
  {
    if m.wordSize == 4 {
      assert x + k * m.Modulus() == x + k * 0x1_0000_0000;
    } else {
      assert x + k * m.Modulus() == x + k * TWO_TO_64;
    }
  }

  lemma WordPlus(m: Machine, a: int, b: int)
    ensures m.Word(m.Word(a) + b) == m.Word(a + b)
  {
    var q := a / m.Modulus();
    assert a == m.Word(a) + q * m.Modulus();
    WordShift(m, m.Word(a) + b, q);
  }

  lemma WordMinus(m: Machine, a: int, b: int)
    ensures m.Word(a - m.Word(b)) == m.Word(a - b)
  {
    var q := b / m.Modulus();
    assert b == m.Word(b) + q * m.Modulus();
    assert (-q) * m.Modulus() == -(q * m.Modulus());
    WordShift(m, a - m.Word(b), -q);
  }

  lemma WordProduct(m: Machine, a: int, b: int)
    ensures m.Word(m.Word(a) * m.Word(b)) == m.Word(a * b)
  {
    var q, r := a / m.Modulus(), b / m.Modulus();
    var u, v := m.Word(a), m.Word(b);
    var n := m.Modulus();
    assert a == u + q * n && b == v + r * n;
    Distribute(u, q, v, r, n);
    WordShift(m, u * v, u * r + q * v + q * r * n);
  }

  lemma Distribute(u: int, q: int, v: int, r: int, n: int)
    ensures (u + q * n) * (v + r * n) == u * v + (u * r + q * v + q * r * n) * n
  {
    assert (u + q * n) * (v + r * n) == u * v + u * (r * n) + (q * n) * v + (q * n) * (r * n);
    assert u * (r * n) == (u * r) * n && (q * n) * v == (q * v) * n && (q * n) * (r * n) == (q * r * n) * n;
  }

  lemma UnaryRight(m: Machine, op: UnaryOp, arg: Expr)
    requires Encodable(m, arg)
    ensures UnaryValue(m, op, m.Word(Value(m, arg))) == m.Word(Value(m, Un(op, arg)))
  {
    var v := Value(m, arg);
    match op
    case Neg => WordMinus(m, 0, v);
    case Not =>
      WordMinus(m, m.Modulus() - 1, v);
      WordShift(m, -v - 1, 1);
    case Abs => SignedIsWord(m, v);
  }

  lemma SignedIsWord(m: Machine, v: int)
    ensures m.Word(m.SignedWord(v)) == m.Word(v) && m.SignedWord(m.Word(v)) == m.SignedWord(v)
  {
  }

  lemma FlagIsWord(m: Machine, b: bool)
    ensures m.Word(Flag(b)) == Flag(b)
  {
  }

  lemma BinaryRight(m: Machine, op: BinaryOp, left: Expr, right: Expr)
    requires Encodable(m, Bin(op, left, right))
    ensures BinaryValue(m, op, m.Word(Value(m, left)), m.Word(Value(m, right)))
      == Ok(m.Word(Value(m, Bin(op, left, right))))
  {
    hide And, Or, Xor, Quotient, Remainder, ShiftedLeft, ShiftedRight, ShiftedRightSigned, Flag, Machine.Word;
    var a, b := Value(m, left), Value(m, right);
    var u: int, v: int := m.Word(a), m.Word(b);
    match op
    case Plus =>
      WordPlus(m, a, v);
      WordPlus(m, b, a);
    case Minus =>
      WordPlus(m, a, 0 - v);
      WordMinus(m, a, b);
    case Mul => WordProduct(m, a, b);
    case Le => FlagIsWord(m, u <= v);
    case Ge => FlagIsWord(m, u >= v);
    case Eq => FlagIsWord(m, u == v);
    case Lt => FlagIsWord(m, u < v);
    case Gt => FlagIsWord(m, u > v);
    case Ne => FlagIsWord(m, u != v);
    case _ =>
  }

  // Running the code

  lemma {:induction false} RunPlus(m: Machine, bytes: seq<uint8>, o: Outcome, a: nat, b: nat)
    ensures Run(m, bytes, o, a + b) == Run(m, bytes, Run(m, bytes, o, a), b)
    decreases a
  {
    hide Step;
    if a > 0 && o.Running? {
      RunPlus(m, bytes, Step(m, bytes, o.pos, o.stack), a - 1, b);
      assert a - 1 + b == a + b - 1;
    }
  }

  lemma OneStep(m: Machine, bytes: seq<uint8>, pos: nat, s: seq<nat>)
    ensures Run(m, bytes, Running(pos, s), 1) == Step(m, bytes, pos, s)
  {
    hide Step;
    assert Run(m, bytes, Step(m, bytes, pos, s), 0) == Step(m, bytes, pos, s);
  }

  /**
   * The code of a tree, anywhere in a program, pushes the value of the tree modulo the word size and leaves the values
   * below untouched.
   */
  lemma {:induction false} CodeComputes(m: Machine, bytes: seq<uint8>, pos: nat, e: Expr, s: seq<nat>)
    requires m.Valid() && Encodable(m, e) && Stands(bytes, pos, Code(m, e)) && |s| + Need(e) <= STACK_SIZE
    ensures Run(m, bytes, Running(pos, s), OpCount(e)) == Running(pos + |Code(m, e)|, s + [m.Word(Value(m, e))])
    decreases e
  {
    hide Run, Decode, LeafCode, Value, UnaryValue, BinaryValue;
    match e
    case Un(op, arg) =>
      var n, v := |Code(m, arg)|, m.Word(Value(m, arg));
      StandsParts(bytes, pos, Code(m, arg), [UnaryCode(op)]);
      StandsByte(bytes, pos + n, UnaryCode(op));
      CodeComputes(m, bytes, pos, arg, s);
      OperatorDecodes(m, bytes, pos + n);
      UnaryRight(m, op, arg);
      assert Below(s + [v], 1) == s;
      OneStep(m, bytes, pos + n, s + [v]);
      RunPlus(m, bytes, Running(pos, s), OpCount(arg), 1);
    case Bin(op, left, right) =>
      BinComputes(m, bytes, pos, op, left, right, s);
    case _ =>
      LeafDecodes(m, bytes, pos, e);
      OneStep(m, bytes, pos, s);
  }

  lemma BinCode(m: Machine, op: BinaryOp, left: Expr, right: Expr)
    requires Encodable(m, Bin(op, left, right))
    ensures Code(m, Bin(op, left, right)) == Code(m, left) + Code(m, right) + [BinaryCode(op)]
  {
  }

  lemma BinaryStep(m: Machine, bytes: seq<uint8>, pos: nat, op: BinaryOp, s: seq<nat>, a: nat, b: nat)
    requires pos < |bytes| && Decode(m, bytes, pos) == Decoded(Binary(op), pos + 1)
    requires BinaryValue(m, op, a, b).Ok? && |s| < STACK_SIZE
    ensures Step(m, bytes, pos, s + [a] + [b]) == Running(pos + 1, s + [BinaryValue(m, op, a, b).value])
  {
    hide Decode, BinaryValue, UnaryValue;
    assert Below(s + [a] + [b], 2) == s;
  }

  lemma {:induction false} BinComputes(m: Machine, bytes: seq<uint8>, pos: nat, op: BinaryOp, left: Expr, right: Expr,
      s: seq<nat>)
    requires m.Valid() && Encodable(m, Bin(op, left, right)) && Stands(bytes, pos, Code(m, Bin(op, left, right)))
    requires |s| + Need(Bin(op, left, right)) <= STACK_SIZE
    ensures Run(m, bytes, Running(pos, s), OpCount(Bin(op, left, right))) ==
      Running(pos + |Code(m, Bin(op, left, right))|, s + [m.Word(Value(m, Bin(op, left, right)))])
    decreases Bin(op, left, right), 0
  {
    hide Run, Step, Decode, Value, BinaryValue, UnaryValue, Code, Stands, Machine.Word;
    BinCode(m, op, left, right);
    var a, b := m.Word(Value(m, left)), m.Word(Value(m, right));
    var mid := pos + |Code(m, left)|;
    var end := mid + |Code(m, right)|;
    StandsParts(bytes, pos, Code(m, left) + Code(m, right), [BinaryCode(op)]);
    StandsParts(bytes, pos, Code(m, left), Code(m, right));
    StandsByte(bytes, end, BinaryCode(op));
    CodeComputes(m, bytes, pos, left, s);
    CodeComputes(m, bytes, mid, right, s + [a]);
    OperatorDecodes(m, bytes, end);
    BinaryRight(m, op, left, right);
    BinaryStep(m, bytes, end, op, s, a, b);
    OneStep(m, bytes, end, s + [a] + [b]);
    RunPlus(m, bytes, Running(pos, s), OpCount(left), OpCount(right));
    RunPlus(m, bytes, Running(pos, s), OpCount(left) + OpCount(right), 1);
  }

  lemma EndedStays(m: Machine, bytes: seq<uint8>, o: Outcome, n: nat)
    requires o.Ended?
    ensures Run(m, bytes, o, n) == o
  {
  }

  /** A tree that needs more stack than there is ends in the error of a failing push. */
  lemma {:induction false} CodeOverflows(m: Machine, bytes: seq<uint8>, pos: nat, e: Expr, s: seq<nat>)
    requires m.Valid() && Encodable(m, e) && Stands(bytes, pos, Code(m, e)) && |s| <= STACK_SIZE < |s| + Need(e)
    ensures Run(m, bytes, Running(pos, s), OpCount(e)) == Ended(Err(EINTERNAL))
    decreases e
  {
    hide Run, Decode, LeafCode, Value;
    match e
    case Un(op, arg) =>
      StandsParts(bytes, pos, Code(m, arg), [UnaryCode(op)]);
      CodeOverflows(m, bytes, pos, arg, s);
      RunPlus(m, bytes, Running(pos, s), OpCount(arg), 1);
      EndedStays(m, bytes, Ended(Err(EINTERNAL)), 1);
    case Bin(op, left, right) =>
      var a, mid := m.Word(Value(m, left)), pos + |Code(m, left)|;
      StandsParts(bytes, pos, Code(m, left) + Code(m, right), [BinaryCode(op)]);
      StandsParts(bytes, pos, Code(m, left), Code(m, right));
      RunPlus(m, bytes, Running(pos, s), OpCount(left), OpCount(right) + 1);
      if |s| + Need(left) > STACK_SIZE {
        CodeOverflows(m, bytes, pos, left, s);
        EndedStays(m, bytes, Ended(Err(EINTERNAL)), OpCount(right) + 1);
      } else {
        CodeComputes(m, bytes, pos, left, s);
        CodeOverflows(m, bytes, mid, right, s + [a]);
        RunPlus(m, bytes, Running(mid, s + [a]), OpCount(right), 1);
        EndedStays(m, bytes, Ended(Err(EINTERNAL)), 1);
      }
    case _ =>
      LeafDecodes(m, bytes, pos, e);
      OneStep(m, bytes, pos, s);
  }

  /** The whole evaluation: the value of the tree if and only if the stack is large enough for it. */
  lemma EvaluatesTree(m: Machine, e: Expr, initial: seq<nat>)
    requires m.Valid() && Encodable(m, e) && |initial| <= STACK_SIZE
    ensures Evaluated(m, Code(m, e), initial, OpCount(e) + 1) ==
      Some(if |initial| + Need(e) <= STACK_SIZE then Ok(Value(m, e) % (if m.wordSize == 4 then 0x1_0000_0000 else TWO_TO_64))
           else Err(EINTERNAL))
  {
    hide Run, Decode, Value, LeafCode;
    var bytes := Code(m, e);
    assert bytes[0..|bytes|] == bytes;
    RunPlus(m, bytes, Running(0, initial), OpCount(e), 1);
    if |initial| + Need(e) <= STACK_SIZE {
      CodeComputes(m, bytes, 0, e, initial);
      OneStep(m, bytes, |bytes|, initial + [m.Word(Value(m, e))]);
    } else {
      CodeOverflows(m, bytes, 0, e, initial);
      EndedStays(m, bytes, Ended(Err(EINTERNAL)), 1);
    }
  }

  // Termination

  /** A skip or a branch that leads back to its own opcode or before it. */
  predicate JumpsBack(m: Machine, bytes: seq<uint8>, pos: nat) {
    && pos < |bytes| && Decode(m, bytes, pos).Decoded?
    && var d := Decode(m, bytes, pos);
       (d.op.Jump? || d.op.Branch?) && 0 <= d.next + d.op.offset <= pos
  }

  /** The evaluation comes to such a jump within `n` steps. */
  ghost predicate MeetsBackwardJump(m: Machine, bytes: seq<uint8>, o: Outcome, n: nat) {
    exists k: nat :: k < n && Run(m, bytes, o, k).Running? && JumpsBack(m, bytes, Run(m, bytes, o, k).pos)
  }

  lemma DecodesForward(m: Machine, bytes: seq<uint8>, pos: nat)
    requires pos < |bytes| && Decode(m, bytes, pos).Decoded?
    ensures pos < Decode(m, bytes, pos).next <= |bytes|
  {
    hide DecodeConst, DecodeLeb, DecodeRegister, DecodeRegisterX, DecodeDerefSize, DecodeJump, Machine.Word, UintAt, UlebAt;
  }

  /** A step that is no backward jump moves forward. */
  lemma StepMovesForward(m: Machine, bytes: seq<uint8>, pos: nat, s: seq<nat>)
    requires pos <= |bytes| && !JumpsBack(m, bytes, pos)
    ensures
      var o := Step(m, bytes, pos, s);
      o.Running? ==> pos < o.pos <= |bytes|
  {
    hide Decode, Execute;
    if pos < |bytes| && Decode(m, bytes, pos).Decoded? {
      DecodesForward(m, bytes, pos);
      var d := Decode(m, bytes, pos);
      if Execute(m, bytes, d.op, d.next, s).Running? {
        ExecuteMoves(m, bytes, d.op, d.next, s);
      }
    }
  }

  lemma {:induction false} PositionAfter(m: Machine, bytes: seq<uint8>, pos: nat, s: seq<nat>, n: nat)
    requires pos <= |bytes| && !MeetsBackwardJump(m, bytes, Running(pos, s), n)
    ensures
      var o := Run(m, bytes, Running(pos, s), n);
      o.Running? ==> pos + n <= o.pos <= |bytes|
  {
    hide Step, JumpsBack;
    if n > 0 {
      PositionAfter(m, bytes, pos, s, n - 1);
      var o := Run(m, bytes, Running(pos, s), n - 1);
      RunPlus(m, bytes, Running(pos, s), n - 1, 1);
      if o.Running? {
        OneStep(m, bytes, o.pos, o.stack);
        assert !JumpsBack(m, bytes, o.pos);
        StepMovesForward(m, bytes, o.pos, o.stack);
      } else {
        EndedStays(m, bytes, o, 1);
      }
    }
  }

  /**
   * The bytes that are left bound the evaluation: it ends within one step per byte and one more, unless it comes to a
   * jump that leads back to its own opcode or before it.
   */
  lemma ProgramsEnd(m: Machine, bytes: seq<uint8>, pos: nat, s: seq<nat>)
    requires pos <= |bytes|
    ensures
      var n := |bytes| - pos + 1;
      Run(m, bytes, Running(pos, s), n).Ended? || MeetsBackwardJump(m, bytes, Running(pos, s), n)
  {
    hide Run, JumpsBack;
    var n := |bytes| - pos + 1;
    if !MeetsBackwardJump(m, bytes, Running(pos, s), n) {
      PositionAfter(m, bytes, pos, s, n);
    }
  }

  /** Disassembled from `pos` on, the program has no DW_OP_skip and no DW_OP_bra. */
  predicate JumpFree(m: Machine, bytes: seq<uint8>, pos: nat)
    decreases |bytes| - pos
  {
    pos < |bytes| && Decode(m, bytes, pos).Decoded? ==>
      && !Decode(m, bytes, pos).op.Jump? && !Decode(m, bytes, pos).op.Branch?
      && (pos < Decode(m, bytes, pos).next <= |bytes| ==> JumpFree(m, bytes, Decode(m, bytes, pos).next))
  }

  lemma {:induction false} StaysJumpFree(m: Machine, bytes: seq<uint8>, o: Outcome, n: nat)
    requires o.Running? ==> JumpFree(m, bytes, o.pos)
    ensures
      var o' := Run(m, bytes, o, n);
      o'.Running? ==> JumpFree(m, bytes, o'.pos)
    decreases n
  {
    hide Decode, Execute;
    if n > 0 && o.Running? {
      if o.pos < |bytes| && Decode(m, bytes, o.pos).Decoded? {
        DecodesForward(m, bytes, o.pos);
        var d := Decode(m, bytes, o.pos);
        if Execute(m, bytes, d.op, d.next, o.stack).Running? {
          ExecuteMoves(m, bytes, d.op, d.next, o.stack);
        }
      }
      StaysJumpFree(m, bytes, Step(m, bytes, o.pos, o.stack), n - 1);
    }
  }

  /** So every program without skips and branches ends, whatever is on the stack. */
  lemma JumpFreeProgramsEnd(m: Machine, bytes: seq<uint8>, pos: nat, s: seq<nat>)
    requires pos <= |bytes| && JumpFree(m, bytes, pos)
    ensures Run(m, bytes, Running(pos, s), |bytes| - pos + 1).Ended?
  {
    hide Run, Decode;
    var n := |bytes| - pos + 1;
    ProgramsEnd(m, bytes, pos, s);
    if k: nat :| k < n && Run(m, bytes, Running(pos, s), k).Running?
                 && JumpsBack(m, bytes, Run(m, bytes, Running(pos, s), k).pos) {
      StaysJumpFree(m, bytes, Running(pos, s), k);
    }
  }

  lemma ExecuteMoves(m: Machine, bytes: seq<uint8>, op: Op, pos: nat, s: seq<nat>)
    requires Execute(m, bytes, op, pos, s).Running? && pos <= |bytes|
    ensures
      var p := Execute(m, bytes, op, pos, s).pos;
      && p <= |bytes|
      && (p == pos || (op.Jump? && p == pos + op.offset) || (op.Branch? && p == pos + op.offset))
  {
    hide UnaryValue, BinaryValue;
  }

  /** With a backward jump an evaluation may not end: this one never does. */
  lemma {:induction false} LoopingExpression(m: Machine, s: seq<nat>, n: nat)
    requires !m.bigEndian
    ensures Run(m, [0x2f, 0xfd, 0xff], Running(0, s), n) == Running(0, s)
  {
    var bytes: seq<uint8> := [0x2f, 0xfd, 0xff];
    if n > 0 {
      assert bytes[1..3] == [0xfd, 0xff] && LittleEndian([0xfd, 0xff]) == 0xfffd;
      assert Decode(m, bytes, 0) == Decoded(Jump(-3), 3);
      LoopingExpression(m, s, n - 1);
    }
  }
}

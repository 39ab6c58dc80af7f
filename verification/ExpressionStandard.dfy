/**
 * Where `dwarf_expression_eval` does what DWARF 4 section 2.5.1 says, operation by operation, and where it does not.
 */
module ExpressionStandard {
  import Arithmetic
  import opened Bytes
  import opened Common
  import opened DwarfStackClass
  import opened ExpressionProgram
  import opened ExpressionReference
  import opened Leb128
  import opened OpStreamClass

  /** The quotients are the same: neither operand is negative, or the quotient does not show it. */
  predicate DivisionConforms(m: Machine, second: nat, top: nat) {
    var half := m.Modulus() / 2;
    || top == 0
    || (second < half && top < half)
    || (second < half && top >= half && second < m.Modulus() - top)
    || (second >= half && top == 1)
    || second == top
  }

  predicate BinaryConforms(m: Machine, op: BinaryOp, second: nat, top: nat) {
    if op in {Lt, Le, Gt, Ge} then second < m.Modulus() / 2 <==> top < m.Modulus() / 2
    else op == Div ==> DivisionConforms(m, second, top)
  }

  /** What a caller can see of the operation and the stack before it. */
  predicate Conforms(m: Machine, op: Op, s: seq<nat>) {
    match op
    case PushAndDup(_) => |s| >= STACK_SIZE
    case Pick(i) => i >= |s| || |s| < STACK_SIZE
    case Binary(binary) => |s| >= 2 ==> BinaryConforms(m, binary, Top(s, 2), Top(s, 1))
    case _ => true
  }

  ghost predicate Words(m: Machine, s: seq<nat>) {
    forall i :: 0 <= i < |s| ==> s[i] < m.Modulus()
  }

  lemma SignedParts(m: Machine, v: nat)
    requires m.Valid() && v < m.Modulus()
    ensures m.SignedWord(v) == if v < m.Modulus() / 2 then v else v - m.Modulus()
  {
  }

  lemma ComparisonAgreesIff(m: Machine, op: BinaryOp, second: nat, top: nat)
    requires m.Valid() && op in {Lt, Le, Gt, Ge} && second < m.Modulus() && top < m.Modulus()
    ensures StandardBinary(m, op, second, top) == BinaryValue(m, op, second, top) <==>
      BinaryConforms(m, op, second, top)
  {
    hide Quotient, Remainder, ShiftedLeft, ShiftedRight, ShiftedRightSigned, And, Or, Xor, Machine.SignedWord;
    SignedParts(m, second);
    SignedParts(m, top);
  }

  /** `q` times `y` is the multiple of `y` up to `x`. */
  lemma QuotientFacts(x: nat, y: nat, q: nat)
    requires y > 0 && q * y <= x < q * y + y
    ensures (x < y ==> q == 0) && (x >= y ==> 1 <= q <= x)
    ensures (y == 1 ==> q == x) && (y >= 2 ==> 2 * q <= x) && (x < 2 * y ==> q <= 1)
  {
    Monotone(q, 1, y);
    if y >= 2 {
      Monotone(q, 2, y);
    }
    if q >= 1 {
      Monotone(y, 1, q);
    }
    if q >= 2 {
      Monotone(y, 2, q);
    }
  }

  lemma Monotone(c: nat, a: nat, b: nat)
    requires a <= b
    ensures a * c <= b * c && c * a <= c * b && c * b == b * c
  {
  }

  lemma QuotientBounds(x: nat, y: nat)
    requires y > 0
    ensures (x < y ==> x / y == 0) && (x >= y ==> 1 <= x / y <= x)
    ensures (y == 1 ==> x / y == x) && (y >= 2 ==> 2 * (x / y) <= x) && (x < 2 * y ==> x / y <= 1)
  {
    Arithmetic.DivMod(x, y);
    QuotientFacts(x, y, x / y);
  }

  lemma WordIs(m: Machine, x: int)
    requires m.Valid() && 0 - m.Modulus() < x < m.Modulus()
    ensures m.Word(x) == if x < 0 then x + m.Modulus() else x
  {
  }

  /** `q` divides the unsigned values, `p` the magnitudes of the signed ones `a` and `b`. */
  lemma QuotientsMeet(half: nat, second: nat, top: nat, a: int, b: int, q: nat, p: nat)
    requires half > 1 && second < 2 * half && 0 < top < 2 * half
    requires a == (if second < half then second else second - 2 * half)
    requires b == (if top < half then top else top - 2 * half)
    requires (second < top ==> q == 0) && (second >= top ==> 1 <= q <= second)
    requires (top == 1 ==> q == second) && (top >= 2 ==> 2 * q <= second)
    requires Magnitude(a) < Magnitude(b) ==> p == 0
    requires Magnitude(a) >= Magnitude(b) ==> 1 <= p <= Magnitude(a)
    requires Magnitude(b) == 1 ==> p == Magnitude(a)
    requires Magnitude(b) >= 2 ==> 2 * p <= Magnitude(a)
    requires a == second && b == top ==> p == q
    requires (second < 2 * top ==> q <= 1) && (Magnitude(a) < 2 * Magnitude(b) ==> p <= 1)
    ensures
      var t := if (a < 0) == (b < 0) then p else 0 - p;
      (if t < 0 then t + 2 * half else t) == q <==>
      || (second < half && top < half)
      || (second < half && top >= half && second < 2 * half - top)
      || (second >= half && top == 1)
      || second == top
  {
  }

  /** The unsigned division of the source and the signed one of the standard, by the halves of their operands. */
  lemma DivisionAgreesIff(m: Machine, second: nat, top: nat)
    requires m.Valid() && second < m.Modulus() && 0 < top < m.Modulus()
    ensures
      m.Word(Truncated(m.SignedWord(second), m.SignedWord(top))) == m.Word(second / top)
      <==> DivisionConforms(m, second, top)
  {
    hide Machine.Word, Machine.SignedWord, Machine.Modulus;
    var a, b := m.SignedWord(second), m.SignedWord(top);
    SignedParts(m, second);
    SignedParts(m, top);
    HalfModulus(m);
    QuotientBounds(second, top);
    QuotientBounds(Magnitude(a), Magnitude(b));
    var q, p := second / top, Magnitude(a) / Magnitude(b);
    QuotientsMeet(m.Modulus() / 2, second, top, a, b, q, p);
    WordIs(m, q);
    WordIs(m, Truncated(a, b));
  }

  lemma HalfModulus(m: Machine)
    requires m.Valid()
    ensures m.Modulus() == 2 * (m.Modulus() / 2) && m.Modulus() / 2 > 1
  {
  }

  lemma BinaryAgreesIff(m: Machine, op: BinaryOp, second: nat, top: nat)
    requires m.Valid() && second < m.Modulus() && top < m.Modulus()
    ensures StandardBinary(m, op, second, top) == BinaryValue(m, op, second, top) <==>
      BinaryConforms(m, op, second, top)
  {
    hide DivisionConforms, StandardBinary, BinaryValue;
    if op in {Lt, Le, Gt, Ge} {
      ComparisonAgreesIff(m, op, second, top);
    } else if op == Div {
      if top != 0 {
        DivisionAgreesIff(m, second, top);
      } else {
        ZeroConforms(m, second);
      }
      DivisionResults(m, second, top);
    } else {
      OtherBinaryAgrees(m, op, second, top);
    }
  }

  lemma DivisionResults(m: Machine, second: nat, top: nat)
    requires m.Valid() && second < m.Modulus() && top < m.Modulus()
    ensures top == 0 ==> StandardBinary(m, Div, second, top) == BinaryValue(m, Div, second, top)
    ensures top > 0 ==>
      && StandardBinary(m, Div, second, top) == Ok(m.Word(Truncated(m.SignedWord(second), m.SignedWord(top))))
      && BinaryValue(m, Div, second, top) == Ok(m.Word(second / top))
  {
    hide Truncated, Machine.Word, Machine.SignedWord;
  }

  lemma OtherBinaryAgrees(m: Machine, op: BinaryOp, second: nat, top: nat)
    requires m.Valid() && second < m.Modulus() && top < m.Modulus() && op !in {Lt, Le, Gt, Ge, Div}
    ensures StandardBinary(m, op, second, top) == BinaryValue(m, op, second, top)
  {
    hide Truncated, Machine.Word, Machine.SignedWord, Machine.Modulus, And, Or, Xor, Pow2;
    SignedParts(m, second);
    SignedParts(m, top);
  }

  lemma ZeroConforms(m: Machine, second: nat)
    ensures DivisionConforms(m, second, 0)
  {
  }

  /**
   * Operation by operation, the source does what the standard says if and only if it conforms. DW_OP_bregx does so only
   * where both fail, DW_OP_pick and DW_OP_over unless the stack is full, the comparisons within one half of the values.
   */
  lemma ExecuteAgreesIff(m: Machine, bytes: seq<uint8>, op: Op, pos: nat, s: seq<nat>)
    requires m.Valid() && Words(m, s) && |s| <= STACK_SIZE
    ensures Execute(m, bytes, op, pos, s) == StandardExecute(m, bytes, op, pos, s) <==> Conforms(m, op, s)
  {
    hide BinaryValue, StandardBinary, BinaryConforms, UnaryValue, StandardUnary, Dereference, Fetched, Machine.Word,
      Conforms;
    ConformsFor(m, op, s);
    match op
    case PushAndDup(v) =>
      assert |s + [v, v]| != |s + [v]|;
    case Pick(i) =>
      if i < |s| {
        assert |s + [Top(s, i + 1)]| != |s|;
      }
    case Deref(size, addressSpace) =>
      FetchAgrees(m, size, pos, s);
      if |s| >= 2 {
        FetchAgrees(m, size, pos, Below(s, 2) + [Top(s, 1)]);
      }
    case Unary(unary) =>
      if s != [] {
        UnaryAgrees(m, unary, Top(s, 1));
      }
    case Binary(binary) =>
      if |s| >= 2 {
        BinaryAgreesIff(m, binary, Top(s, 2), Top(s, 1));
        ResultShows(pos, Below(s, 2), StandardBinary(m, binary, Top(s, 2), Top(s, 1)),
                    BinaryValue(m, binary, Top(s, 2), Top(s, 1)));
      }
    case _ =>
  }

  /**
   * What it does instead: DW_OP_bregx pushes the sum and then duplicates it, DW_OP_pick leaves a full stack as it is,
   * and the comparisons and the division take the values without a sign.
   */
  lemma InsteadOfStandard(m: Machine, bytes: seq<uint8>, pos: nat, s: seq<nat>, v: nat, index: nat)
    requires m.Valid() && |s| <= STACK_SIZE && v < m.Modulus()
    ensures
      var pushed := StandardExecute(m, bytes, Push(v), pos, s);
      Execute(m, bytes, PushAndDup(v), pos, s) ==
      if pushed.Ended? then pushed else StandardExecute(m, bytes, Dup, pos, pushed.stack)
    ensures index < |s| == STACK_SIZE ==> Execute(m, bytes, Pick(index), pos, s) == Running(pos, s)
    ensures |s| >= 2 && s[|s| - 2] < m.Modulus() ==>
              forall op :: op in {Lt, Le, Gt, Ge} ==>
                Execute(m, bytes, Binary(op), pos, s) ==
                Running(pos, s[..|s| - 2] + [if Compares(op, s[|s| - 2], s[|s| - 1]) then 1 else 0])
    ensures |s| >= 2 && s[|s| - 1] != 0 && s[|s| - 2] < m.Modulus() ==>
              Execute(m, bytes, Binary(Div), pos, s) == Running(pos, s[..|s| - 2] + [s[|s| - 2] / s[|s| - 1]])
  {
    hide BinaryValue, Compares;
    if |s| < STACK_SIZE {
      assert s + [v, v] == s + [v] + [v];
    }
    if |s| >= 2 && s[|s| - 2] < m.Modulus() {
      UnsignedValues(m, s[|s| - 2], s[|s| - 1]);
    }
  }

  lemma UnsignedValues(m: Machine, second: nat, top: nat)
    requires m.Valid() && second < m.Modulus()
    ensures forall op :: op in {Lt, Le, Gt, Ge} ==>
      BinaryValue(m, op, second, top) == Ok(if Compares(op, second, top) then 1 else 0)
    ensures top != 0 ==> BinaryValue(m, Div, second, top) == Ok(second / top)
  {
    hide Quotient, Remainder, ShiftedLeft, ShiftedRight, ShiftedRightSigned, And, Or, Xor, Machine.Word, Machine.SignedWord,
      Machine.Modulus;
    if top != 0 {
      UnsignedQuotient(m, second, top);
    }
  }

  lemma UnsignedQuotient(m: Machine, second: nat, top: nat)
    requires m.Valid() && second < m.Modulus() && top > 0
    ensures Quotient(m, second, top) == Ok(second / top)
  {
    hide Machine.Word, Machine.Modulus;
    QuotientBounds(second, top);
    WordIs(m, second / top);
  }

  lemma WordSizesAre(m: Machine)
    ensures m.Valid() <==> m.wordSize in {4, 8}
  {
  }

  lemma ConformsFor(m: Machine, op: Op, s: seq<nat>)
    ensures op.PushAndDup? ==> (Conforms(m, op, s) <==> |s| >= STACK_SIZE)
    ensures op.Pick? ==> (Conforms(m, op, s) <==> op.index >= |s| || |s| < STACK_SIZE)
    ensures op.Binary? ==>
      (Conforms(m, op, s) <==> (|s| >= 2 ==> BinaryConforms(m, op.binary, Top(s, 2), Top(s, 1))))
    ensures !op.PushAndDup? && !op.Pick? && !op.Binary? ==> Conforms(m, op, s)
  {
    hide BinaryConforms;
  }

  lemma FetchAgrees(m: Machine, size: nat, pos: nat, s: seq<nat>)
    requires |s| <= STACK_SIZE
    ensures Dereference(m, size, pos, s) == Fetched(m, size, pos, s)
  {
    hide Machine.Word;
  }

  lemma UnaryAgrees(m: Machine, op: UnaryOp, v: nat)
    requires m.Valid() && v < m.Modulus()
    ensures UnaryValue(m, op, v) == StandardUnary(m, op, v)
  {
    hide Machine.Word, Machine.SignedWord;
    SignedParts(m, v);
  }

  /** Different results of an operation lead to different outcomes. */
  lemma ResultShows(pos: nat, s: seq<nat>, a: Result<nat>, b: Result<nat>)
    requires |s| < STACK_SIZE
    ensures After(pos, s, a) == After(pos, s, b) <==> a == b
  {
    if a.Ok? && b.Ok? {
      assert (s + [a.value])[|s|] == a.value && (s + [b.value])[|s|] == b.value;
    }
  }

  function After(pos: nat, s: seq<nat>, r: Result<nat>): Outcome {
    match r
    case Err(e) => Ended(Err(e))
    case Ok(v) => Pushed(pos, s, v)
  }

  /** The number of the register, if there is one, reads the same both ways. */
  predicate RegisterConforms(m: Machine, bytes: seq<uint8>, pos: nat) {
    SlebAt(bytes, pos).Some? ==> 0 <= SlebAt(bytes, pos).value.value < m.Modulus() / 2
  }

  predicate DecodeConforms(m: Machine, bytes: seq<uint8>, pos: nat)
    requires pos < |bytes|
  {
    bytes[pos] == 0x92 ==> RegisterConforms(m, bytes, pos + 1)
  }

  lemma RegisterReads(m: Machine, bytes: seq<uint8>, pos: nat)
    requires m.Valid() && pos <= |bytes|
    ensures UlebAt(bytes, pos).Some? == SlebAt(bytes, pos).Some?
    ensures UlebAt(bytes, pos).Some? ==>
      var u, s := UlebAt(bytes, pos).value, SlebAt(bytes, pos).value;
      u.next == s.next && (m.SignedWord(s.value) == u.value <==> 0 <= s.value < m.Modulus() / 2)
  {
    hide Base128, SignedBase128, Encoding;
    var e := Encoding(bytes[pos..]);
    if e.Ok? {
      TwoReadings(e.value);
      SignedWordOfSigned(m, ToSigned64(SignedBase128(e.value)), Base128(e.value) % TWO_TO_64);
    }
  }

  lemma SignedWordOfSigned(m: Machine, s: int, u: nat)
    requires m.Valid() && -OFF_MAX - 1 <= s <= OFF_MAX
    requires (s >= 0 ==> s == u) && (s < 0 ==> u >= 0x8000_0000 || s >= -0x8000_0000)
    ensures m.SignedWord(s) == u <==> 0 <= s < m.Modulus() / 2
  {
  }

  /**
   * Whatever the registers hold, the decoders agree if and only if the number of the register reads the same both
   * ways.
   */
  lemma DecodeAgreesIff(m: Machine, bytes: seq<uint8>, pos: nat)
    requires m.Valid() && pos < |bytes|
    ensures
      (forall rv: int -> Result<nat> ::
         Decode(m.(registerValue := rv), bytes, pos) == StandardDecode(m.(registerValue := rv), bytes, pos)) <==>
      DecodeConforms(m, bytes, pos)
  {
    hide Decode, SlebAt, UlebAt, Machine.SignedWord;
    forall rv: int -> Result<nat> | DecodeConforms(m, bytes, pos)
      ensures Decode(m.(registerValue := rv), bytes, pos) == StandardDecode(m.(registerValue := rv), bytes, pos)
    {
      ConformingDecode(m.(registerValue := rv), bytes, pos);
    }
    if !DecodeConforms(m, bytes, pos) {
      var s := m.SignedWord(SlebAt(bytes, pos + 1).value.value);
      var rv: int -> Result<nat> := r => if r == s then Err(ENOTSUP) else Ok(0);
      SameWords(m, rv, SlebAt(bytes, pos + 1).value.value);
      OtherRegister(m.(registerValue := rv), bytes, pos, s);
    }
  }

  lemma SameWords(m: Machine, rv: int -> Result<nat>, x: int)
    ensures m.(registerValue := rv).SignedWord(x) == m.SignedWord(x) && m.(registerValue := rv).Modulus() == m.Modulus()
  {
  }

  /** The readers of the stream against the encodings and fields that stand in it. */
  lemma LebReads(bytes: seq<uint8>, pos: nat)
    requires pos <= |bytes|
    ensures
      var u, s := Unsigned(From(bytes, pos)), Signed(From(bytes, pos));
      && UlebAt(bytes, pos) == (if u.Err? then None else Some(Operand(u.value.value, pos + u.value.size)))
      && SlebAt(bytes, pos) == (if s.Err? then None else Some(Operand(s.value.value, pos + s.value.size)))
  {
    hide Unsigned, Signed;
  }

  lemma FieldReads(m: Machine, bytes: seq<uint8>, pos: nat, size: nat)
    requires size in {1, 2, 4, 8}
    ensures
      var u, v := UintAt(bytes, pos, size, m.bigEndian), FieldAt(m, bytes, pos, size, false);
      && (u.Some? <==> v.Some?) && (u.Some? <==> FieldAt(m, bytes, pos, size, true).Some?)
      && (u.Some? ==> u.value.value == v.value && u.value.next == pos + size
                      && FieldAt(m, bytes, pos, size, true) == Some(SignExtended(u.value.value, size)))
  {
    hide LittleEndian, BigEndian, Power;
    PowerIsLimit(size);
  }

  lemma ConstantDecodes(m: Machine, bytes: seq<uint8>, pos: nat, size: nat, signed: bool)
    requires size in {1, 2, 4, 8}
    ensures DecodeConst(m, bytes, pos, size, signed) == Constant(m, bytes, pos, size, signed)
  {
    hide UintAt, FieldAt, SignExtended, Machine.Word;
    FieldReads(m, bytes, pos, size);
  }

  lemma BaseDecodes(m: Machine, bytes: seq<uint8>, pos: nat, regnum: nat)
    requires pos <= |bytes|
    ensures DecodeRegister(m, bytes, pos, regnum) == BasePlus(m, bytes, pos, regnum, false)
  {
    hide SlebAt, Signed, Machine.Word;
    LebReads(bytes, pos);
  }

  lemma ConformingDecode(m: Machine, bytes: seq<uint8>, pos: nat)
    requires m.Valid() && pos < |bytes| && DecodeConforms(m, bytes, pos)
    ensures Decode(m, bytes, pos) == StandardDecode(m, bytes, pos)
  {
    hide Decode, StandardDecode, SlebAt, UlebAt, Machine.SignedWord;
    var opcode := bytes[pos];
    if opcode == 0x92 {
      RegisterReads(m, bytes, pos + 1);
      RegisterXDecodes(m, bytes, pos);
    } else if opcode in {0x10, 0x11, 0x15, 0x23, 0x28, 0x2f, 0x94, 0x95} {
      OperandDecodes(m, bytes, pos);
    } else {
      PlainDecodes(m, bytes, pos);
    }
  }

  lemma RegisterXDecodes(m: Machine, bytes: seq<uint8>, pos: nat)
    requires m.Valid() && pos < |bytes| && bytes[pos] == 0x92
    ensures
      var u, s := UlebAt(bytes, pos + 1), SlebAt(bytes, pos + 1);
      && (u.None? ==> StandardDecode(m, bytes, pos) == Malformed(EINVAL))
      && (s.None? ==> Decode(m, bytes, pos) == Malformed(EINVAL))
      && (u.Some? ==> StandardDecode(m, bytes, pos) == BasePlus(m, bytes, u.value.next, u.value.value, true))
      && (s.Some? && m.SignedWord(s.value.value) >= 0 ==>
            Decode(m, bytes, pos) == BasePlus(m, bytes, s.value.next, m.SignedWord(s.value.value), true))
      && (s.Some? && m.registerValue(m.SignedWord(s.value.value)).Err? ==>
            Decode(m, bytes, pos) == Malformed(m.registerValue(m.SignedWord(s.value.value)).error))
  {
    hide SlebAt, UlebAt, Unsigned, Signed, Machine.Word, Machine.SignedWord, Constant, FieldAt, Plain;
    LebReads(bytes, pos + 1);
    var s := SlebAt(bytes, pos + 1);
    if s.Some? {
      LebReads(bytes, s.value.next);
    }
  }

  /** The opcodes with one operand of their own. */
  lemma OperandDecodes(m: Machine, bytes: seq<uint8>, pos: nat)
    requires pos < |bytes| && bytes[pos] in {0x10, 0x11, 0x15, 0x23, 0x28, 0x2f, 0x94, 0x95}
    ensures Decode(m, bytes, pos) == StandardDecode(m, bytes, pos)
  {
    hide SlebAt, UlebAt, UintAt, Unsigned, Signed, Machine.Word, Machine.SignedWord, Constant, FieldAt, Plain, BasePlus,
      SignExtended, DecodeConst, DecodeRegister, DecodeRegisterX, BinaryOf;
    LebReads(bytes, pos + 1);
    FieldReads(m, bytes, pos + 1, 2);
    if pos + 1 < |bytes| {
      OneByte(bytes, pos + 1, m.bigEndian);
    } else {
      NoByte(bytes, pos + 1, m.bigEndian);
    }
  }

  lemma NoByte(bytes: seq<uint8>, pos: nat, big: bool)
    requires pos >= |bytes|
    ensures UintAt(bytes, pos, 1, big) == None
  {
  }

  lemma PlainDecodes(m: Machine, bytes: seq<uint8>, pos: nat)
    requires pos < |bytes| && bytes[pos] !in {0x10, 0x11, 0x15, 0x23, 0x28, 0x2f, 0x92, 0x94, 0x95}
    ensures Decode(m, bytes, pos) == StandardDecode(m, bytes, pos)
  {
    hide SlebAt, UlebAt, UintAt, Unsigned, Signed, Machine.Word, Machine.SignedWord, Constant, FieldAt, BasePlus,
      SignExtended, DecodeConst, DecodeLeb, DecodeJump, DecodeDerefSize, DecodeRegister, DecodeRegisterX;
    var opcode := bytes[pos];
    if 0x70 <= opcode < 0x90 {
      BaseDecodes(m, bytes, pos + 1, opcode - 0x70);
    } else if 0x08 <= opcode <= 0x0f {
      var size := [1, 2, 4, 8][(opcode - 0x08) / 2];
      ConstantDecodes(m, bytes, pos + 1, size, opcode % 2 == 1);
    }
  }

  lemma OtherRegister(m: Machine, bytes: seq<uint8>, pos: nat, s: int)
    requires m.Valid() && pos < |bytes| && !DecodeConforms(m, bytes, pos)
    requires s == m.SignedWord(SlebAt(bytes, pos + 1).value.value) && m.registerValue(s) == Err(ENOTSUP)
    requires forall r: int :: r != s ==> m.registerValue(r).Ok?
    ensures Decode(m, bytes, pos) != StandardDecode(m, bytes, pos)
  {
    hide Decode, StandardDecode, SlebAt, UlebAt, Machine.SignedWord;
    RegisterReads(m, bytes, pos + 1);
    RegisterXDecodes(m, bytes, pos);
  }

  /** DW_OP_bregx with register 64: the source asks for register -64. */
  lemma Register64(m: Machine)
    requires m.Valid() && m.registerValue(64) == Ok(1) && m.registerValue(-64) == Err(ENOTSUP)
    ensures Step(m, [0x92, 0x40, 0x00], 0, []) == Ended(Err(ENOTSUP))
    ensures StandardStep(m, [0x92, 0x40, 0x00], 0, []) == Running(3, [1])
  {
    hide UlebAt, SlebAt, Machine.Word, Machine.SignedWord, Decode, StandardDecode, Signed;
    var bytes: seq<uint8> := [0x92, 0x40, 0x00];
    OneGroupAt(bytes, 1);
    OneGroupAt(bytes, 2);
    LebReads(bytes, 2);
    SmallWords(m);
    RegisterXDecodes(m, bytes, 0);
  }

  lemma SmallWords(m: Machine)
    requires m.Valid()
    ensures m.SignedWord(-0x40) == -0x40 && m.Word(1) == 1
  {
  }

  lemma OneGroupAt(bytes: seq<uint8>, pos: nat)
    requires pos < |bytes| && bytes[pos] < 0x80
    ensures UlebAt(bytes, pos) == Some(Operand(bytes[pos], pos + 1))
    ensures SlebAt(bytes, pos) == Some(Operand(SignedGroup(bytes[pos]), pos + 1))
  {
    ReadOneGroup(bytes[pos..]);
  }

  function StandardStep(m: Machine, bytes: seq<uint8>, pos: nat, s: seq<nat>): Outcome {
    if pos >= |bytes| then Ended(if s == [] then Err(EINVAL) else Ok(s[|s| - 1]))
    else match StandardDecode(m, bytes, pos)
      case Malformed(e) => Ended(Err(e))
      case Decoded(op, next) => StandardExecute(m, bytes, op, next, s)
  }

  function StandardRun(m: Machine, bytes: seq<uint8>, o: Outcome, n: nat): Outcome
    decreases n
  {
    if n == 0 || o.Ended? then o else StandardRun(m, bytes, StandardStep(m, bytes, o.pos, o.stack), n - 1)
  }

  /** The operation that the evaluation has come to conforms, and so does its encoding. */
  predicate ConformsHere(m: Machine, bytes: seq<uint8>, o: Outcome) {
    o.Running? && o.pos < |bytes| ==>
      && DecodeConforms(m, bytes, o.pos)
      && (Decode(m, bytes, o.pos).Decoded? ==> Conforms(m, Decode(m, bytes, o.pos).op, o.stack))
  }

  lemma DecodedIsWord(m: Machine, bytes: seq<uint8>, pos: nat)
    requires m.Valid() && pos < |bytes| && Decode(m, bytes, pos).Decoded?
    ensures
      var op := Decode(m, bytes, pos).op;
      (op.Push? || op.PushAndDup?) ==> op.value < m.Modulus()
  {
    hide UintAt, UlebAt, SlebAt, Machine.Word, Machine.SignedWord, SignExtended;
  }

  lemma BinaryIsWord(m: Machine, op: BinaryOp, second: nat, top: nat)
    requires m.Valid() && BinaryValue(m, op, second, top).Ok?
    ensures BinaryValue(m, op, second, top).value < m.Modulus()
  {
    hide Machine.Word, Machine.SignedWord, And, Or, Xor, Pow2;
  }

  lemma UnaryIsWord(m: Machine, op: UnaryOp, v: nat)
    ensures UnaryValue(m, op, v) < m.Modulus()
  {
    hide Machine.Word, Machine.SignedWord;
  }

  lemma DereferenceKeepsWords(m: Machine, size: nat, pos: nat, s: seq<nat>)
    requires m.Valid() && Words(m, s) && |s| <= STACK_SIZE
    ensures
      var o := Dereference(m, size, pos, s);
      o.Running? ==> Words(m, o.stack) && |o.stack| <= STACK_SIZE
  {
    hide Machine.Word;
  }

  lemma JumpKeepsStack(bytes: seq<uint8>, pos: nat, offset: int, s: seq<nat>)
    ensures
      var o := Jumped(bytes, pos, offset, s);
      o.Running? ==> o.stack == s
  {
  }

  /** All values on the stack stay words, and there is no room for more than the stack holds. */
  lemma ExecuteKeepsWords(m: Machine, bytes: seq<uint8>, op: Op, pos: nat, s: seq<nat>)
    requires m.Valid() && Words(m, s) && |s| <= STACK_SIZE && ((op.Push? || op.PushAndDup?) ==> op.value < m.Modulus())
    ensures
      var o := Execute(m, bytes, op, pos, s);
      o.Running? ==> Words(m, o.stack) && |o.stack| <= STACK_SIZE
  {
    hide Machine.Word, BinaryValue, UnaryValue, Dereference, Jumped;
    match op
    case Deref(size, addressSpace) =>
      if !addressSpace {
        DereferenceKeepsWords(m, size, pos, s);
      } else if |s| >= 2 {
        DereferenceKeepsWords(m, size, pos, Below(s, 2) + [Top(s, 1)]);
      }
    case Jump(offset) => JumpKeepsStack(bytes, pos, offset, s);
    case Branch(offset) =>
      if s != [] {
        JumpKeepsStack(bytes, pos, offset, Below(s, 1));
      }
    case Unary(unary) =>
      if s != [] {
        UnaryIsWord(m, unary, Top(s, 1));
      }
    case Binary(binary) =>
      if |s| >= 2 && BinaryValue(m, binary, Top(s, 2), Top(s, 1)).Ok? {
        BinaryIsWord(m, binary, Top(s, 2), Top(s, 1));
      }
    case _ =>
  }

  lemma StepKeepsWords(m: Machine, bytes: seq<uint8>, pos: nat, s: seq<nat>)
    requires m.Valid() && Words(m, s) && |s| <= STACK_SIZE
    ensures
      var o := Step(m, bytes, pos, s);
      o.Running? ==> Words(m, o.stack) && |o.stack| <= STACK_SIZE
  {
    hide Decode, Execute, Words;
    if pos < |bytes| && Decode(m, bytes, pos).Decoded? {
      var d := Decode(m, bytes, pos);
      DecodedIsWord(m, bytes, pos);
      ExecuteKeepsWords(m, bytes, d.op, d.next, s);
    }
  }

  /** An operation whose encoding conforms is executed as the standard says if and only if it conforms itself. */
  lemma StepAgreesIff(m: Machine, bytes: seq<uint8>, pos: nat, s: seq<nat>)
    requires m.Valid() && Words(m, s) && |s| <= STACK_SIZE && (pos < |bytes| ==> DecodeConforms(m, bytes, pos))
    ensures Step(m, bytes, pos, s) == StandardStep(m, bytes, pos, s) <==> ConformsHere(m, bytes, Running(pos, s))
  {
    hide Decode, StandardDecode, Execute, StandardExecute, Words, Conforms, DecodeConforms;
    if pos < |bytes| {
      ConformingDecode(m, bytes, pos);
      if Decode(m, bytes, pos).Decoded? {
        var d := Decode(m, bytes, pos);
        ExecuteAgreesIff(m, bytes, d.op, d.next, s);
      }
    }
  }

  lemma ConformingEncoding(m: Machine, bytes: seq<uint8>, o: Outcome)
    requires ConformsHere(m, bytes, o)
    ensures o.Running? && o.pos < |bytes| ==> DecodeConforms(m, bytes, o.pos)
  {
  }

  /** A program whose operations conform where the evaluation comes to them evaluates as the standard says. */
  lemma {:induction false} ConformingRunAgrees(m: Machine, bytes: seq<uint8>, o: Outcome, n: nat)
    requires m.Valid() && (o.Running? ==> Words(m, o.stack) && |o.stack| <= STACK_SIZE)
    requires forall k: nat :: k < n ==> ConformsHere(m, bytes, Run(m, bytes, o, k))
    ensures StandardRun(m, bytes, o, n) == Run(m, bytes, o, n)
    decreases n
  {
    hide Step, StandardStep, ConformsHere, Words, DecodeConforms;
    if n > 0 && o.Running? {
      assert ConformsHere(m, bytes, Run(m, bytes, o, 0));
      ConformingEncoding(m, bytes, o);
      StepKeepsWords(m, bytes, o.pos, o.stack);
      StepAgreesIff(m, bytes, o.pos, o.stack);
      var next := Step(m, bytes, o.pos, o.stack);
      forall k: nat | k < n - 1 ensures ConformsHere(m, bytes, Run(m, bytes, next, k)) {
        assert Run(m, bytes, o, k + 1) == Run(m, bytes, next, k);
      }
      ConformingRunAgrees(m, bytes, next, n - 1);
    }
  }
}

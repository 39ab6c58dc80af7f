/** Which call-frame instructions are refused for their bytes, and with which error. */
module CfaRefusals {
  import opened Common
  import opened CfaTable
  import opened CfaProgram
  import opened Leb128
  import opened OpStreamClass

  /** What stands behind an opcode (DWARF 4 section 7.23). */
  datatype Operand = Address | Fixed(size: nat) | RegisterNumber | Number | BlockLength

  /** The operands that follow the opcode; none for an opcode that is not known. */
  function OperandsOf(opcode: uint8): Option<seq<Operand>> {
    if opcode >= 0x80 && opcode < 0xc0 then Some([Number])
    else if opcode >= 0x40 then Some([])
    else if opcode in {0x00, 0x0a, 0x0b} then Some([])
    else if opcode == 0x01 then Some([Address])
    else if opcode == 0x02 then Some([Fixed(1)])
    else if opcode == 0x03 then Some([Fixed(2)])
    else if opcode == 0x04 then Some([Fixed(4)])
    else if opcode in {0x06, 0x07, 0x08, 0x0d} then Some([RegisterNumber])
    else if opcode in {0x0e, 0x13} then Some([Number])
    else if opcode == 0x0f then Some([BlockLength])
    else if opcode <= 0x16 then Some([RegisterNumber, Number])
    else None
  }

  /** The largest number that is supported. */
  function Largest(operand: Operand): nat {
    match operand
    case RegisterNumber => UINT32_MAX
    case BlockLength => OFF_MAX
    case _ => UINT64_MAX
  }

  /** The error of the first operand that cannot be read. */
  function FirstError(env: Env, bytes: seq<uint8>, pos: nat, operands: seq<Operand>): Option<Error>
    decreases operands
  {
    if operands == [] then None
    else
      var rest := operands[1..];
      match operands[0]
      case Address =>
        if env.segmentSize != 0 then Some(ENOTSUP)
        else if env.pointerAt(pos).None? || pos + env.pointerAt(pos).value.1 > |bytes| then Some(EINVAL)
        else None
      case Fixed(size) => if pos + size > |bytes| then Some(EINVAL) else FirstError(env, bytes, pos + size, rest)
      case _ =>
        var e := Encoding(From(bytes, pos));
        if e.Err? then Some(EINVAL)
        else if Base128(e.value) % TWO_TO_64 > Largest(operands[0]) then Some(ENOTSUP)
        else FirstError(env, bytes, pos + |e.value|, rest)
  }

  lemma NumbersRead(bytes: seq<uint8>, pos: nat)
    requires pos <= |bytes|
    ensures
      var e := Encoding(From(bytes, pos));
      var u, s := UlebAt(bytes, pos), SlebAt(bytes, pos);
      && (e.Ok? <==> u.Some?) && (e.Ok? <==> s.Some?)
      && (e.Ok? ==> u.value.value == Base128(e.value) % TWO_TO_64
                    && u.value.next == s.value.next == pos + |e.value| <= |bytes|)
  {
    hide Base128, SignedBase128, Encoding;
  }

  lemma RegisterRead(bytes: seq<uint8>, pos: nat)
    requires pos <= |bytes|
    ensures
      var e := Encoding(From(bytes, pos));
      var r := RegisterAt(bytes, pos);
      && (e.Err? ==> r == Err(EINVAL))
      && (e.Ok? && Base128(e.value) % TWO_TO_64 > UINT32_MAX ==> r == Err(ENOTSUP))
      && (e.Ok? && Base128(e.value) % TWO_TO_64 <= UINT32_MAX ==> r.Ok? && r.value.next == pos + |e.value| <= |bytes|)
  {
    hide Base128, Encoding, UlebAt, SlebAt;
    NumbersRead(bytes, pos);
  }

  /** The operands of the opcodes that begin with a register. */
  lemma PairRefused(env: Env, bytes: seq<uint8>, pos: nat)
    requires pos <= |bytes|
    ensures
      var r := RegisterAt(bytes, pos);
      FirstError(env, bytes, pos, [RegisterNumber, Number]) ==
      if r.Err? then Some(r.error) else if UlebAt(bytes, r.value.next).None? then Some(EINVAL) else None
    ensures
      var r := RegisterAt(bytes, pos);
      r.Ok? ==> (UlebAt(bytes, r.value.next).None? <==> SlebAt(bytes, r.value.next).None?)
  {
    hide Base128, Encoding, UlebAt, SlebAt, RegisterAt;
    var operands := [RegisterNumber, Number];
    assert operands[1..] == [Number];
    RegisterRead(bytes, pos);
    var r := RegisterAt(bytes, pos);
    if r.Ok? {
      NumbersRead(bytes, r.value.next);
      NumberRefused(env, bytes, r.value.next);
    }
  }

  lemma NumberRefused(env: Env, bytes: seq<uint8>, pos: nat)
    requires pos <= |bytes|
    ensures FirstError(env, bytes, pos, [Number]) == if UlebAt(bytes, pos).None? then Some(EINVAL) else None
    ensures UlebAt(bytes, pos).None? <==> SlebAt(bytes, pos).None?
    ensures FirstError(env, bytes, pos, [RegisterNumber]) ==
            if RegisterAt(bytes, pos).Err? then Some(RegisterAt(bytes, pos).error) else None
    ensures FirstError(env, bytes, pos, [BlockLength]) ==
            if UlebAt(bytes, pos).None? then Some(EINVAL)
            else if UlebAt(bytes, pos).value.value > OFF_MAX then Some(ENOTSUP) else None
  {
    hide Base128, Encoding, UlebAt, SlebAt, RegisterAt;
    NumbersRead(bytes, pos);
    RegisterRead(bytes, pos);
    assert [Number][1..] == [] && [RegisterNumber][1..] == [] && [BlockLength][1..] == [];
  }

  lemma FixedRefused(env: Env, bytes: seq<uint8>, pos: nat, size: nat)
    ensures FirstError(env, bytes, pos, [Fixed(size)]) == if pos + size > |bytes| then Some(EINVAL) else None
    ensures FirstError(env, bytes, pos, []) == None
  {
    assert [Fixed(size)][1..] == [];
  }

  /**
   * An instruction is refused if and only if its opcode is not known or one of its operands cannot be read: the error
   * is that of the first such operand. Three opcodes look at the CFA rule before.
   */
  lemma RefusedIff(env: Env, bytes: seq<uint8>, pos: nat)
    requires env.Valid() && pos < |bytes|
    ensures
      var d, operands := Decode(env, bytes, pos), OperandsOf(bytes[pos]);
      if operands.None? then d == Malformed(false, ENOTSUP)
      else
        var e := FirstError(env, bytes, pos + 1, operands.value);
        && (d.Malformed? <==> e.Some?)
        && (d.Malformed? ==> d == Malformed(bytes[pos] in {0x0d, 0x0e, 0x13}, e.value))
  {
    hide FirstError, UlebAt, DecodeExtended;
    FixedRefused(env, bytes, pos + 1, 1);
    NumberRefused(env, bytes, pos + 1);
    if OperandsOf(bytes[pos]) == Some([RegisterNumber, Number]) {
      PairOpcodes(env, bytes, bytes[pos], pos + 1);
    } else if bytes[pos] < 0x40 {
      OtherOpcodes(env, bytes, bytes[pos], pos + 1);
    }
  }

  lemma PairOpcodes(env: Env, bytes: seq<uint8>, opcode: uint8, p: nat)
    requires env.Valid() && p <= |bytes| && OperandsOf(opcode) == Some([RegisterNumber, Number])
    ensures opcode < 0x40
    ensures
      var d, e := DecodeExtended(env, bytes, opcode, p), FirstError(env, bytes, p, [RegisterNumber, Number]);
      (d.Malformed? <==> e.Some?) && (d.Malformed? ==> d == Malformed(false, e.value))
  {
    hide FirstError, UlebAt, SlebAt, RegisterAt, Skipped, Env.Word, Env.SignedWord, Env.Factored, ToSigned64,
      DecodeAdvance, DecodeSetLocation, DecodeDefineCfaOffset, DecodeDefineCfaExpression, DecodeRegister;
    PairRefused(env, bytes, p);
  }

  lemma OtherOpcodes(env: Env, bytes: seq<uint8>, opcode: uint8, p: nat)
    requires env.Valid() && p <= |bytes| && opcode < 0x40 && OperandsOf(opcode) != Some([RegisterNumber, Number])
    ensures
      var d, operands := DecodeExtended(env, bytes, opcode, p), OperandsOf(opcode);
      if operands.None? then d == Malformed(false, ENOTSUP)
      else
        var e := FirstError(env, bytes, p, operands.value);
        && (d.Malformed? <==> e.Some?)
        && (d.Malformed? ==> d == Malformed(opcode in {0x0d, 0x0e, 0x13}, e.value))
  {
    hide FirstError, UlebAt, SlebAt, RegisterAt, Skipped, Env.Word, Env.SignedWord, Env.Factored, ToSigned64,
      DecodeOffsetRule, DecodeRegisterRule, DecodeDefineCfa, DecodeExpressionRule, DecodeSetLocation;
    NumberRefused(env, bytes, p);
    FixedRefused(env, bytes, p, 1);
    FixedRefused(env, bytes, p, 2);
    FixedRefused(env, bytes, p, 4);
    AddressRefused(env, bytes, p);
  }

  /** The interpreter fails with that error; only an opcode that looks at the CFA rule fails with EINVAL before. */
  lemma StepRefused(env: Env, initial: Rules, bytes: seq<uint8>, c: Config)
    requires env.Valid() && c.table.Valid() && c.pos < |bytes| && (env.pc == 0 || c.location <= env.pc)
    ensures
      var operands := OperandsOf(bytes[c.pos]);
      var e := if operands.None? then Some(ENOTSUP) else FirstError(env, bytes, c.pos + 1, operands.value);
      var cfa := c.table.Top().cfa;
      e.Some? ==>
        Step(env, initial, bytes, c) ==
        Failed(if bytes[c.pos] in {0x0d, 0x0e, 0x13} && (cfa.Undefined? || cfa.CfaExpression?) then EINVAL else e.value,
               c.table)
  {
    hide Decode, FirstError, Execute;
    RefusedIff(env, bytes, c.pos);
  }

  lemma AddressRefused(env: Env, bytes: seq<uint8>, pos: nat)
    requires env.Valid()
    ensures
      var d := DecodeSetLocation(env, bytes, pos);
      FirstError(env, bytes, pos, [Address]) == if d.Malformed? then Some(d.error) else None
    ensures DecodeSetLocation(env, bytes, pos).Malformed? ==> !DecodeSetLocation(env, bytes, pos).needsRegisterCfa
  {
  }
}

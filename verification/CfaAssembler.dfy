/**
 * Call-frame instructions as DWARF 4 encodes them (section 7.23), and that `eval_program` reads them back: a program
 * runs like the list of its instructions.
 */
module CfaAssembler {
  import opened Bytes
  import opened Common
  import opened Leb128
  import opened OpStreamClass
  import opened CfaTable
  import opened CfaProgram
  import opened CfaProgramTheorems

  datatype Source =
    | AdvanceBy(delta: nat)
    | AdvanceField(delta: nat, size: nat)
    | OffsetOf(reg: RegNum, n: nat)
    | RestoreOf(reg: RegNum)
    | NoOp
    | OffsetExtended(reg: RegNum, n: nat)
    | OffsetSigned(reg: RegNum, s: int)
    | ValOffsetOf(reg: RegNum, n: nat)
    | ValOffsetSigned(reg: RegNum, s: int)
    | RestoreOfExtended(reg: RegNum)
    | UndefinedOf(reg: RegNum)
    | SameValueOf(reg: RegNum)
    | RegisterOf(reg: RegNum, source: nat)
    | Remember
    | RestoreRemembered
    | DefCfa(reg: RegNum, n: nat)
    | DefCfaSigned(reg: RegNum, s: int)
    | DefCfaRegister(reg: RegNum)
    | DefCfaOffset(n: nat)
    | DefCfaOffsetSigned(s: int)
    | DefCfaExpression(block: seq<uint8>)
    | ExpressionOf(reg: RegNum, block: seq<uint8>)
    | ValExpressionOf(reg: RegNum, block: seq<uint8>)

  /** The values of a ULEB128 or SLEB128 operand of 64 bits. */
  predicate IsLeb(n: int, signed: bool) {
    if signed then -OFF_MAX - 1 <= n <= OFF_MAX else 0 <= n < TWO_TO_64
  }

  predicate Encodable(a: Source) {
    match a
    case AdvanceBy(delta) => delta < 0x40
    case AdvanceField(delta, size) => size in {1, 2, 4} && delta < FieldLimit(size)
    case OffsetOf(reg, n) => reg < 0x40 && IsLeb(n, false)
    case RestoreOf(reg) => reg < 0x40
    case OffsetExtended(_, n) => IsLeb(n, false)
    case OffsetSigned(_, s) => IsLeb(s, true)
    case ValOffsetOf(_, n) => IsLeb(n, false)
    case ValOffsetSigned(_, s) => IsLeb(s, true)
    case RegisterOf(_, source) => IsLeb(source, false)
    case DefCfa(_, n) => IsLeb(n, false)
    case DefCfaSigned(_, s) => IsLeb(s, true)
    case DefCfaOffset(n) => IsLeb(n, false)
    case DefCfaOffsetSigned(s) => IsLeb(s, true)
    case DefCfaExpression(block) => |block| <= OFF_MAX
    case ExpressionOf(_, block) => |block| <= OFF_MAX
    case ValExpressionOf(_, block) => |block| <= OFF_MAX
    case _ => true
  }

  function Leb(n: int, signed: bool): seq<uint8>
    requires IsLeb(n, signed)
  {
    if signed then EncodeSigned(n) else EncodeUnsigned(n)
  }

  /** A register number. */
  function Reg(reg: RegNum): seq<uint8> {
    EncodeUnsigned(reg)
  }

  /** An expression behind its length. */
  function Block(block: seq<uint8>): seq<uint8> {
    EncodeUnsigned(|block|) + block
  }

  /** The operand sits in the low six bits of the opcode. */
  predicate IsPacked(a: Source) {
    a.AdvanceBy? || a.OffsetOf? || a.RestoreOf?
  }

  /** The opcode byte. */
  function Opcode(a: Source): uint8
    requires Encodable(a)
  {
    match a
    case AdvanceBy(delta) => 0x40 + delta
    case AdvanceField(_, size) => (match size case 1 => 0x02 case 2 => 0x03 case _ => 0x04)
    case OffsetOf(reg, _) => 0x80 + reg
    case RestoreOf(reg) => 0xc0 + reg
    case NoOp => 0x00
    case OffsetExtended(_, _) => 0x05
    case RestoreOfExtended(_) => 0x06
    case UndefinedOf(_) => 0x07
    case SameValueOf(_) => 0x08
    case RegisterOf(_, _) => 0x09
    case Remember => 0x0a
    case RestoreRemembered => 0x0b
    case DefCfa(_, _) => 0x0c
    case DefCfaRegister(_) => 0x0d
    case DefCfaOffset(_) => 0x0e
    case DefCfaExpression(_) => 0x0f
    case ExpressionOf(_, _) => 0x10
    case OffsetSigned(_, _) => 0x11
    case DefCfaSigned(_, _) => 0x12
    case DefCfaOffsetSigned(_) => 0x13
    case ValOffsetOf(_, _) => 0x14
    case ValOffsetSigned(_, _) => 0x15
    case ValExpressionOf(_, _) => 0x16
  }

  function Operands(a: Source, big: bool): seq<uint8>
    requires Encodable(a)
  {
    match a
    case AdvanceField(delta, size) => Field(delta, size, big)
    case OffsetOf(_, n) => Leb(n, false)
    case OffsetExtended(reg, n) => Reg(reg) + Leb(n, false)
    case OffsetSigned(reg, s) => Reg(reg) + Leb(s, true)
    case ValOffsetOf(reg, n) => Reg(reg) + Leb(n, false)
    case ValOffsetSigned(reg, s) => Reg(reg) + Leb(s, true)
    case RestoreOfExtended(reg) => Reg(reg)
    case UndefinedOf(reg) => Reg(reg)
    case SameValueOf(reg) => Reg(reg)
    case RegisterOf(reg, source) => Reg(reg) + Leb(source, false)
    case DefCfa(reg, n) => Reg(reg) + Leb(n, false)
    case DefCfaSigned(reg, s) => Reg(reg) + Leb(s, true)
    case DefCfaRegister(reg) => Reg(reg)
    case DefCfaOffset(n) => Leb(n, false)
    case DefCfaOffsetSigned(s) => Leb(s, true)
    case DefCfaExpression(block) => Block(block)
    case ExpressionOf(reg, block) => Reg(reg) + Block(block)
    case ValExpressionOf(reg, block) => Reg(reg) + Block(block)
    case _ => []
  }

  function Code(a: Source, big: bool): (r: seq<uint8>)
    requires Encodable(a)
    ensures r != []
  {
    [Opcode(a)] + Operands(a, big)
  }

  /** The signed number of a word that is `x` modulo `modulus`. */
  function TwosComplement(x: int, modulus: nat): int
    requires modulus > 0
  {
    if x % modulus < modulus / 2 then x % modulus else x % modulus - modulus
  }

  /**
   * What an instruction at `pos` means, in arithmetic on words of the target: factored offsets are multiplied by the
   * data alignment, and blocks become target addresses.
   */
  function Meaning(env: Env, a: Source, pos: nat): Instr
    requires env.Valid() && Encodable(a)
  {
    match a
    case AdvanceBy(delta) => AdvanceLocation(delta)
    case AdvanceField(delta, _) => AdvanceLocation(delta)
    case OffsetOf(reg, n) => SetRule(reg, RegRule(Offset, n * env.dataAlignment % env.wordModulus))
    case RestoreOf(reg) => Restore(reg)
    case NoOp => Nop
    case OffsetExtended(reg, n) => SetRule(reg, RegRule(Offset, n * env.dataAlignment % env.wordModulus))
    case OffsetSigned(reg, s) => SetRule(reg, RegRule(Offset, s * env.dataAlignment % env.wordModulus))
    case ValOffsetOf(reg, n) => SetRule(reg, RegRule(ValOffset, n * env.dataAlignment % env.wordModulus))
    case ValOffsetSigned(reg, s) => SetRule(reg, RegRule(ValOffset, s * env.dataAlignment % env.wordModulus))
    case RestoreOfExtended(reg) => RestoreExtended(reg)
    case UndefinedOf(reg) => UndefineRegister(reg)
    case SameValueOf(reg) => SetRule(reg, RegRule(SameValue, 0))
    case RegisterOf(reg, source) => SetRule(reg, RegRule(Register, source % env.wordModulus))
    case Remember => RememberState
    case RestoreRemembered => RestoreState
    case DefCfa(reg, n) => DefineCfa(RegisterOffset(reg, n % env.wordModulus))
    case DefCfaSigned(reg, s) => DefineCfa(RegisterOffsetSigned(reg, TwosComplement(s * env.dataAlignment, env.wordModulus)))
    case DefCfaRegister(reg) => DefineCfaRegister(reg)
    case DefCfaOffset(n) => DefineCfaOffset(n % env.wordModulus)
    case DefCfaOffsetSigned(s) => DefineCfaOffsetSigned(TwosComplement(s * env.dataAlignment, env.wordModulus))
    case DefCfaExpression(block) => DefineCfa(CfaExpression(env.address + pos + 1 + |EncodeUnsigned(|block|)|, |block|))
    case ExpressionOf(reg, _) => SetRule(reg, RegRule(Expression, (env.address + pos + 1 + |Reg(reg)|) % env.wordModulus))
    case ValExpressionOf(reg, _) => SetRule(reg, RegRule(ValExpression, (env.address + pos + 1 + |Reg(reg)|) % env.wordModulus))
  }

  lemma RegisterStands(bytes: seq<uint8>, pos: nat, reg: RegNum)
    requires Stands(bytes, pos, Reg(reg))
    ensures RegisterAt(bytes, pos) == Ok(RegisterOperand(reg, pos + |Reg(reg)|))
  {
    hide UlebAt, EncodeUnsigned, Stands;
    UlebStands(bytes, pos, reg);
  }

  lemma LebStands(bytes: seq<uint8>, pos: nat, n: int, signed: bool)
    requires IsLeb(n, signed) && Stands(bytes, pos, Leb(n, signed))
    ensures
      var v := if signed then SlebAt(bytes, pos) else UlebAt(bytes, pos);
      v == Some(Operand(n, pos + |Leb(n, signed)|))
  {
    hide UlebAt, SlebAt, EncodeUnsigned, EncodeSigned, Stands;
    if signed {
      SlebStands(bytes, pos, n);
    } else {
      UlebStands(bytes, pos, n);
    }
  }

  /** A register and a ULEB128 or SLEB128 operand. */
  lemma PairStands(bytes: seq<uint8>, pos: nat, reg: RegNum, n: int, signed: bool)
    requires IsLeb(n, signed) && Stands(bytes, pos, Reg(reg) + Leb(n, signed))
    ensures RegisterAt(bytes, pos) == Ok(RegisterOperand(reg, pos + |Reg(reg)|))
    ensures
      var p := pos + |Reg(reg)|;
      var v := if signed then SlebAt(bytes, p) else UlebAt(bytes, p);
      v == Some(Operand(n, p + |Leb(n, signed)|))
  {
    hide UlebAt, SlebAt, Reg, Leb, Stands, RegisterAt;
    StandsParts(bytes, pos, Reg(reg), Leb(n, signed));
    RegisterStands(bytes, pos, reg);
    LebStands(bytes, pos + |Reg(reg)|, n, signed);
  }

  /** A block behind its length is skipped. */
  lemma BlockStands(bytes: seq<uint8>, pos: nat, block: seq<uint8>)
    requires |block| <= OFF_MAX && Stands(bytes, pos, Block(block))
    ensures
      var p := pos + |EncodeUnsigned(|block|)|;
      && UlebAt(bytes, pos) == Some(Operand(|block|, p))
      && Skipped(bytes, p, |block|) == Skipped(bytes, p, ToSigned64(|block|)) == p + |block|
  {
    hide UlebAt, EncodeUnsigned;
    StandsParts(bytes, pos, EncodeUnsigned(|block|), block);
    UlebStands(bytes, pos, |block|);
  }

  lemma OffsetRuleDecodes(env: Env, bytes: seq<uint8>, pos: nat, reg: RegNum, n: int, kind: RuleKind, signed: bool)
    requires env.Valid() && IsLeb(n, signed)
    requires Stands(bytes, pos, Reg(reg) + Leb(n, signed))
    ensures
      var next := pos + |Reg(reg)| + |Leb(n, signed)|;
      DecodeOffsetRule(env, bytes, RegisterAt(bytes, pos), kind, signed)
      == Decoded(SetRule(reg, RegRule(kind, n * env.dataAlignment % env.wordModulus)), next)
  {
    hide UlebAt, SlebAt, Reg, Leb, Stands, RegisterAt;
    PairStands(bytes, pos, reg, n, signed);
  }

  lemma RegisterRuleDecodes(env: Env, bytes: seq<uint8>, pos: nat, reg: RegNum, n: int)
    requires env.Valid() && IsLeb(n, false) && Stands(bytes, pos, Reg(reg) + Leb(n, false))
    ensures
      var next := pos + |Reg(reg)| + |Leb(n, false)|;
      DecodeRegisterRule(env, bytes, pos) == Decoded(SetRule(reg, RegRule(Register, n % env.wordModulus)), next)
  {
    hide UlebAt, SlebAt, Reg, Leb, Stands, RegisterAt;
    PairStands(bytes, pos, reg, n, false);
  }

  lemma DefineCfaDecodes(env: Env, bytes: seq<uint8>, pos: nat, reg: RegNum, n: int, signed: bool)
    requires env.Valid() && IsLeb(n, signed)
    requires Stands(bytes, pos, Reg(reg) + Leb(n, signed))
    ensures
      var next := pos + |Reg(reg)| + |Leb(n, signed)|;
      var cfa := if signed then RegisterOffsetSigned(reg, TwosComplement(n * env.dataAlignment, env.wordModulus))
                 else RegisterOffset(reg, n % env.wordModulus);
      DecodeDefineCfa(env, bytes, pos, signed) == Decoded(DefineCfa(cfa), next)
  {
    hide UlebAt, SlebAt, Reg, Leb, Stands, RegisterAt;
    PairStands(bytes, pos, reg, n, signed);
  }

  lemma DefineCfaOffsetDecodes(env: Env, bytes: seq<uint8>, pos: nat, n: int, signed: bool)
    requires env.Valid() && IsLeb(n, signed) && Stands(bytes, pos, Leb(n, signed))
    ensures
      var next := pos + |Leb(n, signed)|;
      DecodeDefineCfaOffset(env, bytes, pos, signed) == Decoded(
        if signed then DefineCfaOffsetSigned(TwosComplement(n * env.dataAlignment, env.wordModulus))
        else DefineCfaOffset(n % env.wordModulus),
        next)
  {
    hide UlebAt, SlebAt, Reg, Leb, Stands;
    LebStands(bytes, pos, n, signed);
  }

  lemma DefineCfaExpressionDecodes(env: Env, bytes: seq<uint8>, pos: nat, block: seq<uint8>)
    requires env.Valid() && |block| <= OFF_MAX && Stands(bytes, pos, Block(block))
    ensures
      var p := pos + |EncodeUnsigned(|block|)|;
      DecodeDefineCfaExpression(env, bytes, pos)
      == Decoded(DefineCfa(CfaExpression(env.address + p, |block|)), pos + |Block(block)|)
  {
    hide UlebAt, EncodeUnsigned, Stands, Skipped;
    BlockStands(bytes, pos, block);
  }

  lemma ExpressionRuleDecodes(env: Env, bytes: seq<uint8>, pos: nat, reg: RegNum, block: seq<uint8>, kind: RuleKind)
    requires env.Valid() && |block| <= OFF_MAX && Stands(bytes, pos, Reg(reg) + Block(block))
    ensures
      var p := pos + |Reg(reg)|;
      DecodeExpressionRule(env, bytes, pos, kind)
      == Decoded(SetRule(reg, RegRule(kind, (env.address + p) % env.wordModulus)), p + |Block(block)|)
  {
    hide UlebAt, EncodeUnsigned, Stands, Skipped, ToSigned64, RegisterAt;
    StandsParts(bytes, pos, Reg(reg), Block(block));
    RegisterStands(bytes, pos, reg);
    BlockStands(bytes, pos + |Reg(reg)|, block);
  }

  lemma AdvanceDecodes(env: Env, bytes: seq<uint8>, pos: nat, delta: nat, size: nat)
    requires size in {1, 2, 4} && delta < FieldLimit(size) && Stands(bytes, pos, Field(delta, size, env.bigEndian))
    ensures DecodeAdvance(env, bytes, pos, size) == Decoded(AdvanceLocation(delta), pos + size)
  {
    hide UintAt, Stands, Field, FieldLimit;
    UintStands(bytes, pos, delta, size, env.bigEndian);
  }

  /** The instructions that set a rule of a register. */
  predicate SetsRule(a: Source) {
    || a.OffsetExtended? || a.OffsetSigned? || a.ValOffsetOf? || a.ValOffsetSigned? || a.RegisterOf? || a.ExpressionOf?
    || a.ValExpressionOf?
  }

  lemma RuleDecodes(env: Env, bytes: seq<uint8>, a: Source, pos: nat)
    requires env.Valid() && Encodable(a) && SetsRule(a) && Stands(bytes, pos + 1, Operands(a, env.bigEndian))
    ensures
      var next := pos + 1 + |Operands(a, env.bigEndian)|;
      DecodeExtended(env, bytes, Opcode(a), pos + 1) == Decoded(Meaning(env, a, pos), next)
  {
    hide Stands, RegisterAt, Reg, Leb, EncodeUnsigned, Block, Field, FieldLimit, DecodeOffsetRule,
      DecodeRegisterRule, DecodeDefineCfa, DecodeDefineCfaOffset, DecodeDefineCfaExpression, DecodeSetLocation,
      DecodeExpressionRule, DecodeAdvance, DecodeRegister, TwosComplement;
    var p := pos + 1;
    match a
    case RegisterOf(reg, source) => RegisterRuleDecodes(env, bytes, p, reg, source);
    case ExpressionOf(reg, block) => ExpressionRuleDecodes(env, bytes, p, reg, block, Expression);
    case ValExpressionOf(reg, block) => ExpressionRuleDecodes(env, bytes, p, reg, block, ValExpression);
    case _ => OffsetDecodes(env, bytes, a, pos);
  }

  lemma OffsetDecodes(env: Env, bytes: seq<uint8>, a: Source, pos: nat)
    requires env.Valid() && Encodable(a) && Stands(bytes, pos + 1, Operands(a, env.bigEndian))
    requires a.OffsetExtended? || a.OffsetSigned? || a.ValOffsetOf? || a.ValOffsetSigned?
    ensures
      var next := pos + 1 + |Operands(a, env.bigEndian)|;
      DecodeExtended(env, bytes, Opcode(a), pos + 1) == Decoded(Meaning(env, a, pos), next)
  {
    hide Stands, RegisterAt, Reg, Leb, EncodeUnsigned, Block, Field, FieldLimit, DecodeOffsetRule,
      DecodeRegisterRule, DecodeDefineCfa, DecodeDefineCfaOffset, DecodeDefineCfaExpression, DecodeSetLocation,
      DecodeExpressionRule, DecodeAdvance, DecodeRegister, TwosComplement;
    var p := pos + 1;
    match a
    case OffsetExtended(reg, n) => OffsetRuleDecodes(env, bytes, p, reg, n, Offset, false);
    case OffsetSigned(reg, s) => OffsetRuleDecodes(env, bytes, p, reg, s, Offset, true);
    case ValOffsetOf(reg, n) => OffsetRuleDecodes(env, bytes, p, reg, n, ValOffset, false);
    case ValOffsetSigned(reg, s) => OffsetRuleDecodes(env, bytes, p, reg, s, ValOffset, true);
  }

  /** The instructions whose only operand is a register. */
  predicate NamesRegister(a: Source) {
    a.RestoreOfExtended? || a.UndefinedOf? || a.SameValueOf? || a.DefCfaRegister?
  }

  lemma RegisterDecodes(env: Env, bytes: seq<uint8>, a: Source, pos: nat)
    requires env.Valid() && Encodable(a) && NamesRegister(a) && Stands(bytes, pos + 1, Operands(a, env.bigEndian))
    ensures
      var next := pos + 1 + |Operands(a, env.bigEndian)|;
      DecodeExtended(env, bytes, Opcode(a), pos + 1) == Decoded(Meaning(env, a, pos), next)
  {
    hide Stands, RegisterAt, Reg, Leb, EncodeUnsigned, Block, Field, FieldLimit, DecodeOffsetRule,
      DecodeRegisterRule, DecodeDefineCfa, DecodeDefineCfaOffset, DecodeDefineCfaExpression, DecodeSetLocation,
      DecodeExpressionRule, DecodeAdvance, TwosComplement;
    RegisterStands(bytes, pos + 1, a.reg);
  }

  /** The opcodes that use all eight bits: every operand is found where it stands. */
  lemma ExtendedDecodes(env: Env, bytes: seq<uint8>, a: Source, pos: nat)
    requires env.Valid() && Encodable(a) && !IsPacked(a) && Stands(bytes, pos + 1, Operands(a, env.bigEndian))
    ensures
      var next := pos + 1 + |Operands(a, env.bigEndian)|;
      DecodeExtended(env, bytes, Opcode(a), pos + 1) == Decoded(Meaning(env, a, pos), next)
  {
    hide Stands, DecodeExtended, Operands, Meaning, Encodable, Opcode;
    if SetsRule(a) {
      RuleDecodes(env, bytes, a, pos);
    } else if NamesRegister(a) {
      RegisterDecodes(env, bytes, a, pos);
    } else {
      OtherDecodes(env, bytes, a, pos);
    }
  }

  lemma OtherDecodes(env: Env, bytes: seq<uint8>, a: Source, pos: nat)
    requires env.Valid() && Encodable(a) && !IsPacked(a) && !SetsRule(a) && !NamesRegister(a)
    requires Stands(bytes, pos + 1, Operands(a, env.bigEndian))
    ensures
      var next := pos + 1 + |Operands(a, env.bigEndian)|;
      DecodeExtended(env, bytes, Opcode(a), pos + 1) == Decoded(Meaning(env, a, pos), next)
  {
    hide Stands, RegisterAt, Reg, Leb, EncodeUnsigned, Block, Field, FieldLimit, DecodeOffsetRule,
      DecodeRegisterRule, DecodeDefineCfa, DecodeDefineCfaOffset, DecodeDefineCfaExpression, DecodeSetLocation,
      DecodeExpressionRule, DecodeAdvance, DecodeRegister, TwosComplement;
    var p := pos + 1;
    match a
    case AdvanceField(delta, size) => AdvanceDecodes(env, bytes, p, delta, size);
    case DefCfa(reg, n) => DefineCfaDecodes(env, bytes, p, reg, n, false);
    case DefCfaSigned(reg, s) => DefineCfaDecodes(env, bytes, p, reg, s, true);
    case DefCfaOffset(n) => DefineCfaOffsetDecodes(env, bytes, p, n, false);
    case DefCfaOffsetSigned(s) => DefineCfaOffsetDecodes(env, bytes, p, s, true);
    case DefCfaExpression(block) => DefineCfaExpressionDecodes(env, bytes, p, block);
    case _ =>
  }

  /** The opcodes that pack an operand into their low six bits. */
  lemma PackedDecodes(env: Env, bytes: seq<uint8>, a: Source, pos: nat)
    requires env.Valid() && Encodable(a) && IsPacked(a)
    requires pos < |bytes| && bytes[pos] == Opcode(a) && Stands(bytes, pos + 1, Operands(a, env.bigEndian))
    ensures
      Decode(env, bytes, pos) == Decoded(Meaning(env, a, pos), pos + 1 + |Operands(a, env.bigEndian)|)
  {
    hide UlebAt, Leb, Stands, DecodeExtended;
    if a.OffsetOf? {
      LebStands(bytes, pos + 1, a.n, false);
    }
  }

  /** Every instruction of DWARF 4 section 7.23 is read back from its encoding, wherever it stands. */
  lemma AssembledDecodes(env: Env, bytes: seq<uint8>, a: Source, pos: nat)
    requires env.Valid() && Encodable(a) && Stands(bytes, pos, Code(a, env.bigEndian))
    ensures pos < |bytes|
    ensures Decode(env, bytes, pos) == Decoded(Meaning(env, a, pos), pos + |Code(a, env.bigEndian)|)
  {
    hide Stands, DecodeExtended, DecodeOffsetRule, Operands, Meaning, Encodable;
    StandsParts(bytes, pos, [Opcode(a)], Operands(a, env.bigEndian));
    StandsByte(bytes, pos, Opcode(a));
    if IsPacked(a) {
      PackedDecodes(env, bytes, a, pos);
    } else {
      ExtendedDecodes(env, bytes, a, pos);
    }
  }

  /** A program, without alignment or padding. */
  function Assemble(program: seq<Source>, big: bool): seq<uint8>
    requires forall a <- program :: Encodable(a)
  {
    if program == [] then [] else Code(program[0], big) + Assemble(program[1..], big)
  }

  /**
   * What a list of instructions does, with no bytes involved: each is executed in turn, up to the first one that fails,
   * or that is at a location above a non-zero pc. `pos` is where the list is encoded; only the addresses of
   * blocks depend on it.
   */
  function RunList(env: Env, initial: Rules, program: seq<Source>, pos: nat, location: nat, t: Table): Outcome
    requires env.Valid() && t.Valid() && forall a <- program :: Encodable(a)
  {
    if program == [] || (env.pc != 0 && location > env.pc) then Finished(location, t)
    else
      var next := pos + |Code(program[0], env.bigEndian)|;
      ExecuteKeepsPosition(env, initial, Meaning(env, program[0], pos), Config(next, location, t));
      match Execute(env, initial, Meaning(env, program[0], pos), Config(next, location, t))
      case Running(c) => RunList(env, initial, program[1..], next, c.location, c.table)
      case stopped => stopped
  }

  /** A run is its first step and the run behind it. */
  lemma {:induction false} RunFromFront(env: Env, initial: Rules, bytes: seq<uint8>, c: Config, n: nat)
    requires env.Valid() && c.table.Valid()
    ensures
      var o := Step(env, initial, bytes, c);
      && (o.Running? ==> o.c.table.Valid())
      && Run(env, initial, bytes, c, n + 1) == if o.Running? then Run(env, initial, bytes, o.c, n) else o
  {
    hide Step;
    StepKeepsValid(env, initial, bytes, c);
    if n > 0 {
      RunFromFront(env, initial, bytes, c, n - 1);
    }
  }

  /** The interpreter over the bytes of a program does what the list of its instructions does. */
  lemma {:induction false} AssembledRuns(env: Env, initial: Rules, program: seq<Source>, bytes: seq<uint8>, c: Config,
      n: nat)
    requires env.Valid() && c.table.Valid() && n > |program| && forall a <- program :: Encodable(a)
    requires c.pos <= |bytes| && bytes[c.pos..] == Assemble(program, env.bigEndian)
    ensures Run(env, initial, bytes, c, n) == RunList(env, initial, program, c.pos, c.location, c.table)
  {
    hide Decode, Execute, Run, Meaning, Code, Encodable;
    RunFromFront(env, initial, bytes, c, n - 1);
    if program != [] && !(env.pc != 0 && c.location > env.pc) {
      var code := Code(program[0], env.bigEndian);
      assert bytes[c.pos..][..|code|] == code && bytes[c.pos..][|code|..] == Assemble(program[1..], env.bigEndian);
      AssembledDecodes(env, bytes, program[0], c.pos);
      var next := c.(pos := c.pos + |code|);
      ExecuteKeepsPosition(env, initial, Meaning(env, program[0], c.pos), next);
      var o := Execute(env, initial, Meaning(env, program[0], c.pos), next);
      if o.Running? {
        AssembledRuns(env, initial, program[1..], bytes, o.c, n - 1);
      }
    }
  }
}

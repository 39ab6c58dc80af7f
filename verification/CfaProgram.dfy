/**
 * The meaning of a call-frame program (DWARF 4 section 6.4.2) as `eval_program` reads it: instructions are decoded from
 * the opcode bytes and executed on the stack of maps of module CfaTable.
 */
module CfaProgram {
  import opened Common
  import opened Leb128
  import opened OpStreamClass
  import opened CfaTable

  /** A GNU eh_frame pointer read at a stream position: its value and size, or a failure. */
  type PointerReader = nat -> Option<(nat, nat)>

  datatype Env = Env(
    pc: nat,
    codeAlignment: nat,
    dataAlignment: int,
    segmentSize: nat,
    wordModulus: nat,
    bigEndian: bool,
    address: nat,
    pointerAt: PointerReader)
  {
    predicate Valid() {
      wordModulus == 0x1_0000_0000 || wordModulus == TWO_TO_64
    }

    /** Conversion to the target's unsigned word. */
    function Word(x: int): nat
      requires Valid()
    {
      WordOf(x, wordModulus)
    }

    /** Conversion to the target's signed word. */
    function SignedWord(x: int): int
      requires Valid()
    {
      SignedWordOf(x, wordModulus)
    }

    function Factored(x: int): nat
      requires Valid()
    {
      Word(x * dataAlignment)
    }
  }

  datatype Instr =
    | Nop
    | SetLocation(location: nat)
    | AdvanceLocation(delta: nat)
    | DefineCfa(cfa: CfaRule)
    | DefineCfaRegister(regnum: RegNum)
    | DefineCfaOffset(offset: nat)
    | DefineCfaOffsetSigned(soffset: int)
    | SetRule(regnum: RegNum, rule: RegRule)
    | UndefineRegister(regnum: RegNum)
    | Restore(regnum: RegNum)
    | RestoreExtended(regnum: RegNum)
    | RememberState
    | RestoreState

  /**
   * An instruction and the position behind it, or why its operands cannot be read. Some opcodes look at the CFA rule
   * before they read their operand, and refuse a rule that is not register based first.
   */
  datatype Decoded =
    | Decoded(instr: Instr, next: nat)
    | Malformed(needsRegisterCfa: bool, error: Error)

  predicate IsRegisterBased(cfa: CfaRule) {
    cfa.RegisterOffset? || cfa.RegisterOffsetSigned?
  }

  datatype RegisterOperand = RegisterOperand(regnum: RegNum, next: nat)

  /** A ULEB128 register number; numbers above UINT32_MAX are not supported. */
  function RegisterAt(bytes: seq<uint8>, pos: nat): (r: Result<RegisterOperand>)
    ensures r.Ok? ==> pos < r.value.next <= |bytes|
  {
    match UlebAt(bytes, pos)
    case None => Err(EINVAL)
    case Some(v) => if v.value > UINT32_MAX then Err(ENOTSUP) else Ok(RegisterOperand(v.value, v.next))
  }

  function DecodeAdvance(env: Env, bytes: seq<uint8>, pos: nat, size: nat): (d: Decoded)
    ensures d.Decoded? ==> pos <= d.next <= |bytes|
  {
    match UintAt(bytes, pos, size, env.bigEndian)
    case None => Malformed(false, EINVAL)
    case Some(d) => Decoded(AdvanceLocation(d.value), d.next)
  }

  function DecodeSetLocation(env: Env, bytes: seq<uint8>, pos: nat): (d: Decoded)
    requires env.Valid()
    ensures d.Decoded? ==> pos <= d.next <= |bytes|
  {
    if env.segmentSize != 0 then Malformed(false, ENOTSUP)
    else match env.pointerAt(pos)
      case None => Malformed(false, EINVAL)
      case Some((value, size)) =>
        if pos + size <= |bytes| then Decoded(SetLocation(env.Word(value)), pos + size) else Malformed(false, EINVAL)
  }

  /** The opcodes that give a register an offset from the CFA, unsigned or signed. */
  function DecodeOffsetRule(env: Env, bytes: seq<uint8>, r: Result<RegisterOperand>, kind: RuleKind,
      signed: bool): (d: Decoded)
    requires env.Valid()
    ensures d.Decoded? ==> r.Ok? && r.value.next <= d.next <= |bytes|
  {
    match r
    case Err(e) => Malformed(false, e)
    case Ok(reg) =>
      match if signed then SlebAt(bytes, reg.next) else UlebAt(bytes, reg.next)
      case None => Malformed(false, EINVAL)
      case Some(v) => Decoded(SetRule(reg.regnum, RegRule(kind, env.Factored(v.value))), v.next)
  }

  function DecodeRegisterRule(env: Env, bytes: seq<uint8>, pos: nat): (d: Decoded)
    requires env.Valid()
    ensures d.Decoded? ==> pos <= d.next <= |bytes|
  {
    match RegisterAt(bytes, pos)
    case Err(e) => Malformed(false, e)
    case Ok(reg) =>
      match UlebAt(bytes, reg.next)
      case None => Malformed(false, EINVAL)
      case Some(v) => Decoded(SetRule(reg.regnum, RegRule(Register, env.Word(v.value))), v.next)
  }

  /**
   * A register rule given by an expression: the rule holds the target address of the block, length header included. The
   * length is converted to a signed offset for skipping, so a length above PL_VM_OFF_MAX moves backwards.
   */
  function DecodeExpressionRule(env: Env, bytes: seq<uint8>, pos: nat, kind: RuleKind): Decoded
    requires env.Valid()
  {
    match RegisterAt(bytes, pos)
    case Err(e) => Malformed(false, e)
    case Ok(reg) =>
      match UlebAt(bytes, reg.next)
      case None => Malformed(false, EINVAL)
      case Some(v) =>
        Decoded(SetRule(reg.regnum, RegRule(kind, env.Word(env.address + reg.next))),
                Skipped(bytes, v.next, ToSigned64(v.value)))
  }

  function DecodeDefineCfa(env: Env, bytes: seq<uint8>, pos: nat, signed: bool): (d: Decoded)
    requires env.Valid()
    ensures d.Decoded? ==> pos <= d.next <= |bytes|
  {
    match RegisterAt(bytes, pos)
    case Err(e) => Malformed(false, e)
    case Ok(reg) =>
      if signed then
        match SlebAt(bytes, reg.next)
        case None => Malformed(false, EINVAL)
        case Some(v) =>
          Decoded(DefineCfa(RegisterOffsetSigned(reg.regnum, env.SignedWord(v.value * env.dataAlignment))), v.next)
      else
        match UlebAt(bytes, reg.next)
        case None => Malformed(false, EINVAL)
        case Some(v) => Decoded(DefineCfa(RegisterOffset(reg.regnum, env.Word(v.value))), v.next)
  }

  function DecodeDefineCfaOffset(env: Env, bytes: seq<uint8>, pos: nat, signed: bool): (d: Decoded)
    requires env.Valid()
    ensures d.Decoded? ==> pos <= d.next <= |bytes|
  {
    if signed then
      match SlebAt(bytes, pos)
      case None => Malformed(true, EINVAL)
      case Some(v) => Decoded(DefineCfaOffsetSigned(env.SignedWord(v.value * env.dataAlignment)), v.next)
    else
      match UlebAt(bytes, pos)
      case None => Malformed(true, EINVAL)
      case Some(v) => Decoded(DefineCfaOffset(env.Word(v.value)), v.next)
  }

  function DecodeDefineCfaExpression(env: Env, bytes: seq<uint8>, pos: nat): (d: Decoded)
    ensures d.Decoded? ==> pos <= d.next <= |bytes|
  {
    match UlebAt(bytes, pos)
    case None => Malformed(false, EINVAL)
    case Some(v) =>
      if v.value > OFF_MAX then Malformed(false, ENOTSUP)
      else Decoded(DefineCfa(CfaExpression(env.address + v.next, v.value)), Skipped(bytes, v.next, v.value))
  }

  /** An instruction whose only operand is a register number. */
  function DecodeRegister(bytes: seq<uint8>, pos: nat, needsRegisterCfa: bool, make: RegNum -> Instr): (d: Decoded)
    ensures d.Decoded? ==> pos <= d.next <= |bytes|
  {
    match RegisterAt(bytes, pos)
    case Err(e) => Malformed(needsRegisterCfa, e)
    case Ok(reg) => Decoded(make(reg.regnum), reg.next)
  }

  /** The opcodes that use all eight bits. */
  function DecodeExtended(env: Env, bytes: seq<uint8>, opcode: uint8, p: nat): Decoded
    requires env.Valid()
  {
    match opcode
    case 0x00 => Decoded(Nop, p)
    case 0x01 => DecodeSetLocation(env, bytes, p)
    case 0x02 => DecodeAdvance(env, bytes, p, 1)
    case 0x03 => DecodeAdvance(env, bytes, p, 2)
    case 0x04 => DecodeAdvance(env, bytes, p, 4)
    case 0x05 => DecodeOffsetRule(env, bytes, RegisterAt(bytes, p), Offset, false)
    case 0x06 => DecodeRegister(bytes, p, false, (r: RegNum) => RestoreExtended(r))
    case 0x07 => DecodeRegister(bytes, p, false, (r: RegNum) => UndefineRegister(r))
    case 0x08 => DecodeRegister(bytes, p, false, (r: RegNum) => SetRule(r, RegRule(SameValue, 0)))
    case 0x09 => DecodeRegisterRule(env, bytes, p)
    case 0x0a => Decoded(RememberState, p)
    case 0x0b => Decoded(RestoreState, p)
    case 0x0c => DecodeDefineCfa(env, bytes, p, false)
    case 0x0d => DecodeRegister(bytes, p, true, (r: RegNum) => DefineCfaRegister(r))
    case 0x0e => DecodeDefineCfaOffset(env, bytes, p, false)
    case 0x0f => DecodeDefineCfaExpression(env, bytes, p)
    case 0x10 => DecodeExpressionRule(env, bytes, p, Expression)
    case 0x11 => DecodeOffsetRule(env, bytes, RegisterAt(bytes, p), Offset, true)
    case 0x12 => DecodeDefineCfa(env, bytes, p, true)
    case 0x13 => DecodeDefineCfaOffset(env, bytes, p, true)
    case 0x14 => DecodeOffsetRule(env, bytes, RegisterAt(bytes, p), ValOffset, false)
    case 0x15 => DecodeOffsetRule(env, bytes, RegisterAt(bytes, p), ValOffset, true)
    case 0x16 => DecodeExpressionRule(env, bytes, p, ValExpression)
    case _ => Malformed(false, ENOTSUP)
  }

  /** The three opcodes with an operand in the low six bits come first. */
  function Decode(env: Env, bytes: seq<uint8>, pos: nat): Decoded
    requires env.Valid() && pos < |bytes|
  {
    var opcode := bytes[pos];
    var operand := opcode % 0x40;
    match opcode / 0x40
    case 0 => DecodeExtended(env, bytes, opcode, pos + 1)
    case 1 => Decoded(AdvanceLocation(operand), pos + 1)
    case 2 => DecodeOffsetRule(env, bytes, Ok(RegisterOperand(operand, pos + 1)), Offset, false)
    case _ => Decoded(Restore(operand), pos + 1)
  }

  datatype Config = Config(pos: nat, location: nat, table: Table)

  /** Diverged: the instruction asks for a removal whose loop does not end. */
  datatype Outcome =
    | Running(c: Config)
    | Finished(location: nat, table: Table)
    | Failed(error: Error, table: Table)
    | Diverged

  function SetOrFail(c: Config, r: RegNum, rule: RegRule): Outcome
    requires c.table.Valid()
  {
    if c.table.CanSet(r) then Running(c.(table := c.table.SetRegister(r, rule))) else Failed(ENOMEM, c.table)
  }

  function RemoveOrDiverge(c: Config, r: RegNum): Outcome
    requires c.table.Valid()
  {
    if c.table.RemovalDiverges(r) then Diverged else Running(c.(table := c.table.RemoveRegister(r)))
  }

  /**
   * The effect of an instruction; `c` already stands behind it, and `initial` are the rules on entry to the program.
   */
  function Execute(env: Env, initial: Rules, instr: Instr, c: Config): Outcome
    requires env.Valid() && c.table.Valid()
  {
    var t := c.table;
    match instr
    case Nop => Running(c)
    case SetLocation(l) => Running(c.(location := l))
    case AdvanceLocation(delta) => Running(c.(location := env.Word(c.location + delta * env.codeAlignment)))
    case DefineCfa(cfa) => Running(c.(table := t.SetCfa(cfa)))
    case DefineCfaRegister(r) => (
      match t.Top().cfa
      case RegisterOffset(_, offset) => Running(c.(table := t.SetCfa(RegisterOffset(r, offset))))
      case RegisterOffsetSigned(_, offset) => Running(c.(table := t.SetCfa(RegisterOffsetSigned(r, offset))))
      case _ => Failed(EINVAL, t))
    case DefineCfaOffset(offset) =>
      if IsRegisterBased(t.Top().cfa) then Running(c.(table := t.SetCfa(RegisterOffset(t.Top().cfa.regnum, offset))))
      else Failed(EINVAL, t)
    case DefineCfaOffsetSigned(offset) =>
      if IsRegisterBased(t.Top().cfa) then Running(c.(table := t.SetCfa(RegisterOffsetSigned(t.Top().cfa.regnum, offset))))
      else Failed(EINVAL, t)
    case SetRule(r, rule) => SetOrFail(c, r, rule)
    case UndefineRegister(r) => RemoveOrDiverge(c, r)
    case Restore(r) => if r in initial then SetOrFail(c, r, initial[r]) else RemoveOrDiverge(c, r)
    // The source removes the register of the opcode's low bits here, which are zero.
    case RestoreExtended(r) => if r in initial then SetOrFail(c, r, initial[r]) else RemoveOrDiverge(c, 0)
    case RememberState => if t.CanPush() then Running(c.(table := t.PushState())) else Failed(ENOMEM, t)
    case RestoreState => if t.CanPop() then Running(c.(table := t.PopState())) else Failed(EINVAL, t)
  }

  /** One iteration of the interpreter loop. */
  function Step(env: Env, initial: Rules, bytes: seq<uint8>, c: Config): Outcome
    requires env.Valid() && c.table.Valid()
  {
    if (env.pc != 0 && c.location > env.pc) || c.pos >= |bytes| then Finished(c.location, c.table)
    else match Decode(env, bytes, c.pos)
      case Malformed(needs, e) =>
        Failed(if needs && !IsRegisterBased(c.table.Top().cfa) then EINVAL else e, c.table)
      case Decoded(instr, next) => Execute(env, initial, instr, c.(pos := next))
  }

  lemma StepKeepsValid(env: Env, initial: Rules, bytes: seq<uint8>, c: Config)
    requires env.Valid() && c.table.Valid()
    ensures Step(env, initial, bytes, c).Running? ==> Step(env, initial, bytes, c).c.table.Valid()
  {
    hide Decode;
  }

  /** At most `n` iterations. */
  function Run(env: Env, initial: Rules, bytes: seq<uint8>, c: Config, n: nat): (o: Outcome)
    requires env.Valid() && c.table.Valid()
    ensures o.Running? ==> o.c.table.Valid()
  {
    if n == 0 then Running(c)
    else match Run(env, initial, bytes, c, n - 1)
      case Running(d) => StepKeepsValid(env, initial, bytes, d); Step(env, initial, bytes, d)
      case stopped => stopped
  }
}

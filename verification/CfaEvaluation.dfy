/** `eval_program`: the opcode loop over the stream and the pool-backed table, proved equal to module CfaProgram. */
module CfaEvaluation {
  import opened Bytes
  import opened Common
  import opened Leb128
  import opened OpStreamClass
  import opened CfaTable
  import opened CfaEnumeration
  import opened CfaStateClass
  import opened CfaIteratorClass
  import opened CfaProgram

  /** What one opcode does to the loop: go on at a location, return an error, or never return. */
  datatype Progress = Continue(location: nat) | Abort(error: Error) | Hang

  /** The pool-backed state after an opcode is what the outcome says. */
  ghost predicate Agrees(p: Progress, o: Outcome, s: CfaState, stream: OpStream)
    reads s, stream
  {
    match p
    case Continue(location) => o == Running(Config(stream.pos, location, s.table))
    case Abort(error) => o == Failed(error, s.table)
    case Hang => o == Diverged
  }

  /** What the interpreter does after decoding. */
  function Executed(env: Env, initial: Rules, d: Decoded, c: Config): Outcome
    requires env.Valid() && c.table.Valid()
  {
    match d
    case Malformed(needs, e) => Failed(if needs && !IsRegisterBased(c.table.Top().cfa) then EINVAL else e, c.table)
    case Decoded(instr, next) => Execute(env, initial, instr, c.(pos := next))
  }

  method ReadRegister(stream: OpStream) returns (r: Result<RegNum>)
    requires stream.Valid()
    modifies stream
    ensures stream.Valid()
    ensures
      var reg := RegisterAt(stream.Bytes(), old(stream.pos));
      if reg.Ok? then r == Ok(reg.value.regnum) && stream.pos == reg.value.next else r == Err(reg.error)
  {
    var v := stream.ReadUleb();
    if v.None? {
      return Err(EINVAL);
    }
    if v.value > UINT32_MAX {
      return Err(ENOTSUP);
    }
    return Ok(v.value);
  }

  /** DW_CFA_advance_loc1, 2 and 4. */
  method EvalAdvance(env: Env, stream: OpStream, s: CfaState, ghost initial: Rules, location: nat, size: nat)
    returns (p: Progress)
    requires env.Valid() && stream.Valid() && s.Valid() && stream !in s.Repr
    modifies stream
    ensures stream.Valid()
    ensures Agrees(p, Executed(env, initial, DecodeAdvance(env, stream.Bytes(), old(stream.pos), size),
                               Config(0, location, s.table)), s, stream)
  {
    hide CfaState.Valid, UlebAt, SlebAt, UintAt, OpStream.Bytes;
    var delta := stream.ReadUint(size, env.bigEndian);
    if delta.None? {
      return Abort(EINVAL);
    }
    return Continue(env.Word(location + delta.value * env.codeAlignment));
  }

  /** DW_CFA_set_loc: the value comes from the GNU pointer reader. */
  method EvalSetLocation(env: Env, stream: OpStream, s: CfaState, ghost initial: Rules, ghost location: nat)
    returns (p: Progress)
    requires env.Valid() && stream.Valid() && s.Valid() && stream !in s.Repr
    modifies stream
    ensures stream.Valid()
    ensures Agrees(p, Executed(env, initial, DecodeSetLocation(env, stream.Bytes(), old(stream.pos)),
                               Config(0, location, s.table)), s, stream)
  {
    hide CfaState.Valid, UlebAt, SlebAt, UintAt, OpStream.Bytes;
    if env.segmentSize != 0 {
      return Abort(ENOTSUP);
    }
    var value := env.pointerAt(stream.pos);
    if value.None? {
      return Abort(EINVAL);
    }
    var ok := stream.Skip(value.value.1);
    if !ok {
      return Abort(EINVAL);
    }
    return Continue(env.Word(value.value.0));
  }

  /** `dw_expr_set_register`. */
  method SetRegister(s: CfaState, stream: OpStream, regnum: RegNum, kind: RuleKind, value: nat, location: nat)
    returns (p: Progress)
    requires s.Valid() && stream !in s.Repr
    modifies s.Repr
    ensures s.Valid()
    ensures Agrees(p, SetOrFail(Config(stream.pos, location, old(s.table)), regnum, RegRule(kind, value)), s, stream)
  {
    hide CfaState.Valid, UlebAt, SlebAt, UintAt, OpStream.Bytes;
    var ok := s.SetRegister(regnum, kind, value);
    return if ok then Continue(location) else Abort(ENOMEM);
  }

  /** `remove_register`, where its loop ends. */
  method RemoveRegister(s: CfaState, stream: OpStream, regnum: RegNum, location: nat) returns (p: Progress)
    requires s.Valid() && stream !in s.Repr
    modifies s.Repr
    ensures s.Valid()
    ensures Agrees(p, RemoveOrDiverge(Config(stream.pos, location, old(s.table)), regnum), s, stream)
  {
    hide CfaState.Valid, UlebAt, SlebAt, UintAt, OpStream.Bytes;
    var ends := s.RemoveRegister(regnum);
    return if ends then Continue(location) else Hang;
  }

  /** The opcodes that store an offset rule; `r` is the register, already read. */
  method EvalOffsetRule(env: Env, stream: OpStream, s: CfaState, ghost initial: Rules, location: nat,
                        r: Result<RegNum>, kind: RuleKind, signed: bool) returns (p: Progress)
    requires env.Valid() && stream.Valid() && s.Valid() && stream !in s.Repr
    modifies stream, s.Repr
    ensures stream.Valid() && s.Valid()
    ensures
      var operand := if r.Ok? then Ok(RegisterOperand(r.value, old(stream.pos))) else Err(r.error);
      Agrees(p, Executed(env, initial, DecodeOffsetRule(env, stream.Bytes(), operand, kind, signed),
                         Config(0, location, old(s.table))), s, stream)
  {
    hide CfaState.Valid, UlebAt, SlebAt, UintAt, OpStream.Bytes;
    if r.Err? {
      return Abort(r.error);
    }
    var value: Option<int>;
    if signed {
      value := stream.ReadSleb();
    } else {
      value := stream.ReadUleb();
    }
    if value.None? {
      return Abort(EINVAL);
    }
    p := SetRegister(s, stream, r.value, kind, env.Factored(value.value), location);
  }

  /** The offset rules whose register is a ULEB128 operand. */
  method EvalOffsetOf(env: Env, stream: OpStream, s: CfaState, ghost initial: Rules, location: nat, kind: RuleKind,
      signed: bool)
    returns (p: Progress)
    requires env.Valid() && stream.Valid() && s.Valid() && stream !in s.Repr
    modifies stream, s.Repr
    ensures stream.Valid() && s.Valid()
    ensures Agrees(p, Executed(env, initial,
                               DecodeOffsetRule(env, stream.Bytes(), RegisterAt(stream.Bytes(), old(stream.pos)), kind, signed),
                               Config(0, location, old(s.table))), s, stream)
  {
    hide CfaState.Valid, Executed, Agrees;
    var r := ReadRegister(stream);
    p := EvalOffsetRule(env, stream, s, initial, location, r, kind, signed);
  }

  /** DW_CFA_register. */
  method EvalRegisterRule(env: Env, stream: OpStream, s: CfaState, ghost initial: Rules, location: nat)
    returns (p: Progress)
    requires env.Valid() && stream.Valid() && s.Valid() && stream !in s.Repr
    modifies stream, s.Repr
    ensures stream.Valid() && s.Valid()
    ensures Agrees(p, Executed(env, initial, DecodeRegisterRule(env, stream.Bytes(), old(stream.pos)),
                               Config(0, location, old(s.table))), s, stream)
  {
    hide CfaState.Valid, UlebAt, SlebAt, UintAt, OpStream.Bytes;
    var r := ReadRegister(stream);
    if r.Err? {
      return Abort(r.error);
    }
    var value := stream.ReadUleb();
    if value.None? {
      return Abort(EINVAL);
    }
    p := SetRegister(s, stream, r.value, Register, env.Word(value.value), location);
  }

  /** DW_CFA_expression and DW_CFA_val_expression; a failing skip is ignored. */
  method EvalExpressionRule(env: Env, stream: OpStream, s: CfaState, ghost initial: Rules, location: nat,
      kind: RuleKind)
    returns (p: Progress)
    requires env.Valid() && stream.Valid() && s.Valid() && stream !in s.Repr
    modifies stream, s.Repr
    ensures stream.Valid() && s.Valid()
    ensures Agrees(p, Executed(env, initial, DecodeExpressionRule(env, stream.Bytes(), old(stream.pos), kind),
                               Config(0, location, old(s.table))), s, stream)
  {
    hide CfaState.Valid, CfaState.Enumeration, Table.SetRegister, Table.CanSet, ToSigned64, UlebAt, SlebAt, UintAt,
      OpStream.Bytes, Env.Word;
    var r := ReadRegister(stream);
    if r.Err? {
      return Abort(r.error);
    }
    var pos := stream.pos;
    var length := stream.ReadUleb();
    if length.None? {
      return Abort(EINVAL);
    }
    var ok := s.SetRegister(r.value, kind, env.Word(env.address + pos));
    if !ok {
      return Abort(ENOMEM);
    }
    var skipped := stream.Skip(ToSigned64(length.value));
    return Continue(location);
  }

  /** DW_CFA_def_cfa and DW_CFA_def_cfa_sf. */
  method EvalDefineCfa(env: Env, stream: OpStream, s: CfaState, ghost initial: Rules, location: nat, signed: bool)
    returns (p: Progress)
    requires env.Valid() && stream.Valid() && s.Valid() && stream !in s.Repr
    modifies stream, s.Repr
    ensures stream.Valid() && s.Valid()
    ensures Agrees(p, Executed(env, initial, DecodeDefineCfa(env, stream.Bytes(), old(stream.pos), signed),
                               Config(0, location, old(s.table))), s, stream)
  {
    hide CfaState.Valid, UlebAt, SlebAt, UintAt, OpStream.Bytes;
    var r := ReadRegister(stream);
    if r.Err? {
      return Abort(r.error);
    }
    if signed {
      var offset := stream.ReadSleb();
      if offset.None? {
        return Abort(EINVAL);
      }
      s.SetCfa(RegisterOffsetSigned(r.value, env.SignedWord(offset.value * env.dataAlignment)));
    } else {
      var offset := stream.ReadUleb();
      if offset.None? {
        return Abort(EINVAL);
      }
      s.SetCfa(RegisterOffset(r.value, env.Word(offset.value)));
    }
    return Continue(location);
  }

  /** DW_CFA_def_cfa_register: keeps the offset, and its signedness, of the current rule. */
  method EvalDefineCfaRegister(env: Env, stream: OpStream, s: CfaState, ghost initial: Rules, location: nat)
    returns (p: Progress)
    requires env.Valid() && stream.Valid() && s.Valid() && stream !in s.Repr
    modifies stream, s.Repr
    ensures stream.Valid() && s.Valid()
    ensures Agrees(p, Executed(env, initial,
                               DecodeRegister(stream.Bytes(), old(stream.pos), true, (r: RegNum) => DefineCfaRegister(r)),
                               Config(0, location, old(s.table))), s, stream)
  {
    hide CfaState.Valid, UlebAt, SlebAt, UintAt, OpStream.Bytes;
    var rule := s.GetCfaRule();
    if !IsRegisterBased(rule) {
      return Abort(EINVAL);
    }
    var r := ReadRegister(stream);
    if r.Err? {
      return Abort(r.error);
    }
    s.SetCfa(if rule.RegisterOffset? then RegisterOffset(r.value, rule.offset) else RegisterOffsetSigned(r.value, rule.soffset));
    return Continue(location);
  }

  /** DW_CFA_def_cfa_offset and DW_CFA_def_cfa_offset_sf: keep the register of the current rule. */
  method EvalDefineCfaOffset(env: Env, stream: OpStream, s: CfaState, ghost initial: Rules, location: nat, signed: bool)
    returns (p: Progress)
    requires env.Valid() && stream.Valid() && s.Valid() && stream !in s.Repr
    modifies stream, s.Repr
    ensures stream.Valid() && s.Valid()
    ensures Agrees(p, Executed(env, initial, DecodeDefineCfaOffset(env, stream.Bytes(), old(stream.pos), signed),
                               Config(0, location, old(s.table))), s, stream)
  {
    hide CfaState.Valid, UlebAt, SlebAt, UintAt, OpStream.Bytes;
    var rule := s.GetCfaRule();
    if !IsRegisterBased(rule) {
      return Abort(EINVAL);
    }
    if signed {
      var offset := stream.ReadSleb();
      if offset.None? {
        return Abort(EINVAL);
      }
      s.SetCfa(RegisterOffsetSigned(rule.regnum, env.SignedWord(offset.value * env.dataAlignment)));
    } else {
      var offset := stream.ReadUleb();
      if offset.None? {
        return Abort(EINVAL);
      }
      s.SetCfa(RegisterOffset(rule.regnum, env.Word(offset.value)));
    }
    return Continue(location);
  }

  /** DW_CFA_def_cfa_expression; a failing skip is ignored. */
  method EvalDefineCfaExpression(env: Env, stream: OpStream, s: CfaState, ghost initial: Rules, location: nat)
    returns (p: Progress)
    requires env.Valid() && stream.Valid() && s.Valid() && stream !in s.Repr
    modifies stream, s.Repr
    ensures stream.Valid() && s.Valid()
    ensures Agrees(p, Executed(env, initial, DecodeDefineCfaExpression(env, stream.Bytes(), old(stream.pos)),
                               Config(0, location, old(s.table))), s, stream)
  {
    hide CfaState.Valid, UlebAt, SlebAt, UintAt, OpStream.Bytes;
    var length := stream.ReadUleb();
    if length.None? {
      return Abort(EINVAL);
    }
    if length.value > OFF_MAX {
      return Abort(ENOTSUP);
    }
    s.SetCfa(CfaExpression(env.address + stream.pos, length.value));
    var skipped := stream.Skip(length.value);
    return Continue(location);
  }

  /** DW_CFA_undefined. */
  method EvalUndefined(env: Env, stream: OpStream, s: CfaState, ghost initial: Rules, location: nat)
    returns (p: Progress)
    requires env.Valid() && stream.Valid() && s.Valid() && stream !in s.Repr
    modifies stream, s.Repr
    ensures stream.Valid() && s.Valid()
    ensures Agrees(p, Executed(env, initial,
                               DecodeRegister(stream.Bytes(), old(stream.pos), false, (r: RegNum) => UndefineRegister(r)),
                               Config(0, location, old(s.table))), s, stream)
  {
    hide CfaState.Valid, UlebAt, SlebAt, UintAt, OpStream.Bytes;
    var r := ReadRegister(stream);
    if r.Err? {
      return Abort(r.error);
    }
    p := RemoveRegister(s, stream, r.value, location);
  }

  /** DW_CFA_same_value. */
  method EvalSameValue(env: Env, stream: OpStream, s: CfaState, ghost initial: Rules, location: nat)
    returns (p: Progress)
    requires env.Valid() && stream.Valid() && s.Valid() && stream !in s.Repr
    modifies stream, s.Repr
    ensures stream.Valid() && s.Valid()
    ensures Agrees(p, Executed(env, initial,
                               DecodeRegister(stream.Bytes(), old(stream.pos), false,
                                              (r: RegNum) => SetRule(r, RegRule(SameValue, 0))),
                               Config(0, location, old(s.table))), s, stream)
  {
    hide CfaState.Valid, UlebAt, SlebAt, UintAt, OpStream.Bytes;
    var r := ReadRegister(stream);
    if r.Err? {
      return Abort(r.error);
    }
    p := SetRegister(s, stream, r.value, SameValue, 0, location);
  }

  /** Reinstates a rule of the initial state, or else removes `absent`. */
  method Reinstate(stream: OpStream, s: CfaState, initialState: CfaState, regnum: RegNum, absent: RegNum, location: nat)
    returns (p: Progress)
    requires s.Valid() && initialState.Valid() && stream !in s.Repr
    modifies s.Repr
    ensures s.Valid()
    ensures
      var initial := old(initialState.table.Top().rules);
      var c := Config(stream.pos, location, old(s.table));
      Agrees(p, if regnum in initial then SetOrFail(c, regnum, initial[regnum]) else RemoveOrDiverge(c, absent), s, stream)
  {
    hide CfaState.Valid, UlebAt, SlebAt, UintAt, OpStream.Bytes;
    var found, kind, value := initialState.GetRegisterRule(regnum);
    if found {
      p := SetRegister(s, stream, regnum, kind, value, location);
    } else {
      p := RemoveRegister(s, stream, absent, location);
    }
  }

  /** DW_CFA_restore_extended: like the source it removes register 0 when the register had no rule on entry. */
  method EvalRestoreExtended(env: Env, stream: OpStream, s: CfaState, initialState: CfaState, location: nat)
    returns (p: Progress)
    requires env.Valid() && stream.Valid() && s.Valid() && stream !in s.Repr && initialState.Valid()
    requires stream !in initialState.Repr
    modifies stream, s.Repr
    ensures stream.Valid() && s.Valid()
    ensures Agrees(p, Executed(env, old(initialState.table.Top().rules),
                               DecodeRegister(stream.Bytes(), old(stream.pos), false, (r: RegNum) => RestoreExtended(r)),
                               Config(0, location, old(s.table))), s, stream)
  {
    hide CfaState.Valid, UlebAt, SlebAt, UintAt, OpStream.Bytes;
    var r := ReadRegister(stream);
    if r.Err? {
      return Abort(r.error);
    }
    p := Reinstate(stream, s, initialState, r.value, 0, location);
  }

  /** DW_CFA_remember_state and DW_CFA_restore_state. */
  method EvalStack(env: Env, stream: OpStream, s: CfaState, ghost initial: Rules, location: nat, remember: bool)
    returns (p: Progress)
    requires env.Valid() && stream.Valid() && s.Valid() && stream !in s.Repr
    modifies s.Repr
    ensures s.Valid()
    ensures Agrees(p, Execute(env, initial, if remember then RememberState else RestoreState,
                              Config(stream.pos, location, old(s.table))), s, stream)
  {
    hide CfaState.Valid, UlebAt, SlebAt, UintAt, OpStream.Bytes;
    if remember {
      var ok := s.PushState();
      return if ok then Continue(location) else Abort(ENOMEM);
    } else {
      var ok := s.PopState();
      return if ok then Continue(location) else Abort(EINVAL);
    }
  }

  method EvalStackOpcode(env: Env, stream: OpStream, s: CfaState, ghost initial: Rules, location: nat, remember: bool)
    returns (p: Progress)
    requires env.Valid() && stream.Valid() && s.Valid() && stream !in s.Repr
    modifies s.Repr
    ensures s.Valid() && stream.Valid()
    ensures Agrees(p, Executed(env, initial, Decoded(if remember then RememberState else RestoreState, stream.pos),
                               Config(0, location, old(s.table))), s, stream)
  {
    hide CfaState.Valid, Execute, Agrees;
    p := EvalStack(env, stream, s, initial, location, remember);
  }

  /** DW_CFA_nop. */
  method Skip(env: Env, stream: OpStream, s: CfaState, ghost initial: Rules, location: nat) returns (p: Progress)
    requires env.Valid() && s.Valid()
    ensures Agrees(p, Executed(env, initial, Decoded(Nop, stream.pos), Config(0, location, s.table)), s, stream)
  {
    hide CfaState.Valid, UlebAt, SlebAt, UintAt, OpStream.Bytes;
    p := Continue(location);
  }

  /** Opcodes that are not supported. */
  method Refuse(env: Env, stream: OpStream, s: CfaState, ghost initial: Rules, location: nat) returns (p: Progress)
    requires env.Valid() && s.Valid()
    ensures Agrees(p, Executed(env, initial, Malformed(false, ENOTSUP), Config(0, location, s.table)), s, stream)
  {
    hide CfaState.Valid, UlebAt, SlebAt, UintAt, OpStream.Bytes;
    p := Abort(ENOTSUP);
  }

  /** The opcodes that use all eight bits. */
  method EvalExtended(env: Env, stream: OpStream, s: CfaState, initialState: CfaState, location: nat, opcode: uint8)
    returns (p: Progress)
    requires env.Valid() && stream.Valid() && s.Valid() && stream !in s.Repr && initialState.Valid()
    requires stream !in initialState.Repr
    modifies stream, s.Repr
    ensures stream.Valid() && s.Valid()
    ensures Agrees(p, Executed(env, old(initialState.table.Top().rules),
                               DecodeExtended(env, stream.Bytes(), opcode, old(stream.pos)),
                               Config(0, location, old(s.table))), s, stream)
  {
    hide CfaState.Valid, Executed, Agrees, DecodeSetLocation, DecodeAdvance, DecodeOffsetRule, DecodeRegister,
      DecodeRegisterRule, DecodeDefineCfa, DecodeDefineCfaOffset, DecodeDefineCfaExpression, DecodeExpressionRule;
    ghost var initial := initialState.table.Top().rules;
    match opcode
    case 0x00 => p := Skip(env, stream, s, initial, location);
    case 0x01 => p := EvalSetLocation(env, stream, s, initial, location);
    case 0x02 => p := EvalAdvance(env, stream, s, initial, location, 1);
    case 0x03 => p := EvalAdvance(env, stream, s, initial, location, 2);
    case 0x04 => p := EvalAdvance(env, stream, s, initial, location, 4);
    case 0x05 => p := EvalOffsetOf(env, stream, s, initial, location, Offset, false);
    case 0x06 => p := EvalRestoreExtended(env, stream, s, initialState, location);
    case 0x07 => p := EvalUndefined(env, stream, s, initial, location);
    case 0x08 => p := EvalSameValue(env, stream, s, initial, location);
    case 0x09 => p := EvalRegisterRule(env, stream, s, initial, location);
    case 0x0a => p := EvalStackOpcode(env, stream, s, initial, location, true);
    case 0x0b => p := EvalStackOpcode(env, stream, s, initial, location, false);
    case 0x0c => p := EvalDefineCfa(env, stream, s, initial, location, false);
    case 0x0d => p := EvalDefineCfaRegister(env, stream, s, initial, location);
    case 0x0e => p := EvalDefineCfaOffset(env, stream, s, initial, location, false);
    case 0x0f => p := EvalDefineCfaExpression(env, stream, s, initial, location);
    case 0x10 => p := EvalExpressionRule(env, stream, s, initial, location, Expression);
    case 0x11 => p := EvalOffsetOf(env, stream, s, initial, location, Offset, true);
    case 0x12 => p := EvalDefineCfa(env, stream, s, initial, location, true);
    case 0x13 => p := EvalDefineCfaOffset(env, stream, s, initial, location, true);
    case 0x14 => p := EvalOffsetOf(env, stream, s, initial, location, ValOffset, false);
    case 0x15 => p := EvalOffsetOf(env, stream, s, initial, location, ValOffset, true);
    case 0x16 => p := EvalExpressionRule(env, stream, s, initial, location, ValExpression);
    case _ => p := Refuse(env, stream, s, initial, location);
  }

  /** One opcode: the three with an operand in the low six bits, or one of the others. */
  method EvalOpcode(env: Env, stream: OpStream, s: CfaState, initialState: CfaState, location: nat)
    returns (p: Progress)
    requires env.Valid() && stream.Valid() && s.Valid() && stream !in s.Repr && initialState.Valid()
    requires stream !in initialState.Repr && stream.pos < stream.length
    modifies stream, s.Repr
    ensures stream.Valid() && s.Valid()
    ensures Agrees(p, Executed(env, old(initialState.table.Top().rules), Decode(env, stream.Bytes(), old(stream.pos)),
                               Config(0, location, old(s.table))), s, stream)
  {
    hide CfaState.Valid, DecodeExtended, DecodeOffsetRule;
    ghost var initial, pos := initialState.table.Top().rules, stream.pos;
    var byte := stream.ReadUint(1, env.bigEndian);
    OneByte(stream.Bytes(), pos, env.bigEndian);
    var opcode: uint8 := byte.value;
    var operand := opcode % 0x40;
    match opcode / 0x40
    case 0 => p := EvalExtended(env, stream, s, initialState, location, opcode);
    case 1 => p := Continue(env.Word(location + operand * env.codeAlignment));
    case 2 => p := EvalOffsetRule(env, stream, s, initial, location, Ok(operand), Offset, false);
    case _ => p := Reinstate(stream, s, initialState, operand, operand, location);
  }

  /** The rules copied after `n` steps of the iteration. */
  ghost predicate Copied(rules: Rules, from: Rules, regs: seq<RegNum>, n: nat) {
    && n <= |regs|
    && (forall r :: r in rules <==> r in regs[..n])
    && (forall r :: r in rules ==> r in from && rules[r] == from[r])
  }

  lemma CopiedNext(rules: Rules, from: Rules, regs: seq<RegNum>, n: nat)
    requires Copied(rules, from, regs, n) && n < |regs| && Distinct(regs) && regs[n] in from
    ensures regs[n] !in rules && Copied(WithRule(rules, regs[n], from[regs[n]]), from, regs, n + 1)
  {
    assert regs[..n + 1] == regs[..n] + [regs[n]];
  }

  lemma CopiedNothing(from: Rules, regs: seq<RegNum>)
    ensures Copied(map[], from, regs, 0)
  {
  }

  lemma SetNewRegister(t: Table, r: RegNum, rule: RegRule)
    requires t.Valid() && r !in t.Top().rules && t.stale != []
    ensures t.CanSet(r) && t.SetRegister(r, rule).Valid()
    ensures t.SetRegister(r, rule).Top().rules == WithRule(t.Top().rules, r, rule)
    ensures |t.SetRegister(r, rule).stale| == |t.stale| - 1
  {
  }

  lemma CopiedAll(rules: Rules, from: Rules, regs: seq<RegNum>)
    requires Copied(rules, from, regs, |regs|) && Elements(regs) == from.Keys
    ensures rules == from
  {
    assert regs[..|regs|] == regs;
    forall r | r in from ensures r in rules {
      assert r in Elements(regs);
    }
  }

  /** One rule more. The source's ENOMEM exit would be here. */
  method CopyRule(initialState: CfaState, regnum: RegNum, kind: RuleKind, value: nat,
                  ghost from: Rules, ghost regs: seq<RegNum>, ghost n: nat)
    requires initialState.Valid() && Copied(initialState.table.Top().rules, from, regs, n) && Distinct(regs)
    requires n < |regs| && regnum == regs[n] && regnum in from && from[regnum] == RegRule(kind, value)
    requires initialState.table.stale != []
    modifies initialState.Repr
    ensures initialState.Valid() && Copied(initialState.table.Top().rules, from, regs, n + 1)
    ensures |initialState.table.stale| == |old(initialState.table).stale| - 1
  {
    hide CfaState.Valid, Distinct, Copied, Table.SetRegister, Table.CanSet;
    CopiedNext(initialState.table.Top().rules, from, regs, n);
    SetNewRegister(initialState.table, regnum, RegRule(kind, value));
    var ok := initialState.SetRegister(regnum, kind, value);
    assert ok;
  }

  /**
   * Saves the rules on entry in a second table. The source has an ENOMEM exit for a failing set_register here; it is
   * never taken, because the new table has room for all the rules that an equally large pool can hold.
   */
  method CopyInitialState(s: CfaState) returns (initialState: CfaState)
    requires s.Valid()
    ensures s.Valid() && initialState.Valid() && fresh(initialState.Repr)
    ensures initialState.table.Top().rules == s.table.Top().rules
  {
    hide CfaState.Valid, CfaStateIterator.Valid, CfaState.Enumeration, Distinct, Elements, Copied;
    initialState := new CfaState();
    var iter := new CfaStateIterator(s);
    CopiedNothing(s.table.Top().rules, s.Enumeration());
    CopyRules(s, iter, initialState);
  }

  method CopyRules(s: CfaState, iter: CfaStateIterator, initialState: CfaState)
    requires s.Valid() && iter.Valid() && iter.stack == s && iter.yielded == 0 && initialState.Valid()
    requires iter !in initialState.Repr && initialState.Repr !! s.Repr && iter !in s.Repr
    requires Copied(initialState.table.Top().rules, s.table.Top().rules, s.Enumeration(), 0)
    requires |initialState.table.stale| == MAX_REGISTERS
    modifies iter, initialState.Repr
    ensures s.Valid() && initialState.Valid() && s.table == old(s.table)
    ensures initialState.table.Top().rules == s.table.Top().rules
  {
    hide CfaState.Valid, CfaStateIterator.Valid, CfaState.Enumeration, Distinct, Elements, Copied;
    ghost var regs, from, n := s.Enumeration(), s.table.Top().rules, 0;
    s.EnumerationListsRules();
    var more, regnum, kind, value := iter.Next();
    while more
      invariant s.Valid() && initialState.Valid() && iter.stack == s
      invariant iter.Valid()
      invariant s.Enumeration() == regs && s.table.Top().rules == from
      invariant Copied(initialState.table.Top().rules, from, regs, n)
      invariant |initialState.table.stale| == MAX_REGISTERS - n
      invariant n <= |regs| && more == (n < |regs|)
      invariant more ==>
        iter.yielded == n + 1 && regnum == regs[n] && regnum in from && from[regnum] == RegRule(kind, value)
      invariant !more ==> iter.yielded == n
      decreases |regs| - n, more
    {
      CopyRule(initialState, regnum, kind, value, from, regs, n);
      n := n + 1;
      more, regnum, kind, value := iter.Next();
    }
    CopiedAll(initialState.table.Top().rules, from, regs);
  }

  datatype Evaluation = Returned(error: Option<Error>, location: nat) | Hangs | OutOfFuel

  /** The result, and the pool-backed state left behind, are those of the interpreter. */
  ghost predicate Ends(r: Evaluation, s: CfaState, o: Outcome)
    reads s
  {
    match o
    case Running(c) => r == OutOfFuel && s.table == c.table
    case Finished(l, t) => r == Returned(None, l) && s.table == t
    case Failed(e, t) => r.Returned? && r.error == Some(e) && s.table == t
    case Diverged => r == Hangs
  }

  /** The loop over the opcodes, at most `fuel` of them. */
  method EvalLoop(env: Env, stream: OpStream, s: CfaState, initialState: CfaState, initialLocation: nat, fuel: nat)
    returns (r: Evaluation)
    requires env.Valid() && stream.Valid() && stream.pos == 0 && s.Valid() && initialState.Valid()
    requires stream !in s.Repr && stream !in initialState.Repr && s.Repr !! initialState.Repr
    modifies stream, s.Repr
    ensures s.Valid()
    ensures Ends(r, s, Run(env, old(initialState.table.Top().rules), stream.Bytes(),
                           Config(0, initialLocation, old(s.table)), fuel))
  {
    hide CfaState.Valid, Decode, Execute;
    ghost var initial, bytes := initialState.table.Top().rules, stream.Bytes();
    ghost var c := Config(0, initialLocation, s.table);
    var location: nat := initialLocation;
    var n := 0;
    while n < fuel
      invariant n <= fuel && stream.Valid() && s.Valid() && initialState.Valid()
      invariant initialState.table.Top().rules == initial
      invariant Run(env, initial, bytes, c, n) == Running(Config(stream.pos, location, s.table))
    {
      if (env.pc != 0 && location > env.pc) || stream.pos >= stream.length {
        RunStops(env, initial, bytes, c, n + 1, fuel);
        return Returned(None, location);
      }
      var p := EvalOpcode(env, stream, s, initialState, location);
      n := n + 1;
      match p
      case Continue(l) =>
        location := l;
      case Abort(e) =>
        RunStops(env, initial, bytes, c, n, fuel);
        return Returned(Some(e), location);
      case Hang =>
        RunStops(env, initial, bytes, c, n, fuel);
        return Hangs;
    }
    return OutOfFuel;
  }

  /** Once a run has stopped, more iterations change nothing. */
  lemma {:induction false} RunStops(env: Env, initial: Rules, bytes: seq<uint8>, c: Config, m: nat, n: nat)
    requires env.Valid() && c.table.Valid() && m <= n && !Run(env, initial, bytes, c, m).Running?
    ensures Run(env, initial, bytes, c, n) == Run(env, initial, bytes, c, m)
  {
    hide Step;
    if m < n {
      RunStops(env, initial, bytes, c, m, n - 1);
    }
  }

  /**
   * `eval_program`. The result, and the pool-backed table left behind, are those of the pure interpreter. `fuel` bounds
   * the number of opcodes, because a program with an expression length above PL_VM_OFF_MAX may run for ever.
   */
  method EvalProgram(env: Env, s: CfaState, base: nat, mem: seq<uint8>, initialLocation: nat,
                     address: nat, offset: int, length: nat, fuel: nat) returns (r: Evaluation)
    requires env.Valid() && s.Valid() && base + |mem| <= ADDRESS_MAX && address <= ADDRESS_MAX
    modifies s.Repr
    ensures s.Valid()
    ensures
      var start := StreamStart(base, |mem|, address, offset, length);
      if start.Err? then r == Returned(Some(start.error), initialLocation) && s.table == old(s.table)
      else
        Ends(r, s, Run(env.(address := start.value), old(s.table.Top().rules),
                       mem[start.value - base..start.value - base + length],
                       Config(0, initialLocation, old(s.table)), fuel))
  {
    hide CfaState.Valid, Run;
    var initialState := CopyInitialState(s);
    var start := StreamStart(base, |mem|, address, offset, length);
    if start.Err? {
      return Returned(Some(start.error), initialLocation);
    }
    var stream := new OpStream(mem, start.value - base, length);
    r := EvalLoop(env.(address := start.value), stream, s, initialState, initialLocation, fuel);
  }
}

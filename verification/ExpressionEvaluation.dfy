/** `dwarf_expression_eval`, on the fixed-size stack and the opcode stream, against the pure interpreter. */
module ExpressionEvaluation {
  import opened Bytes
  import opened Common
  import opened Leb128
  import opened OpStreamClass
  import opened DwarfStackClass
  import opened ExpressionProgram

  ghost predicate Reads(r: Result<Op>, d: Decoded, pos: nat) {
    match d
    case Malformed(e) => r == Err(e)
    case Decoded(op, next) => r == Ok(op) && pos == next
  }

  /** Reads the opcode and its operands. */
  method ReadOp(m: Machine, stream: OpStream) returns (r: Result<Op>)
    requires stream.Valid() && stream.pos < stream.length
    modifies stream
    ensures stream.Valid()
    ensures Reads(r, Decode(m, stream.Bytes(), old(stream.pos)), stream.pos)
  {
    hide DecodeConst, DecodeLeb, DecodeRegister, DecodeRegisterX, DecodeDerefSize, DecodeJump, Machine.Word, UintAt, UlebAt,
      OpStream.Bytes;
    OneByte(stream.Bytes(), stream.pos, m.bigEndian);
    var byte := stream.ReadUint(1, m.bigEndian);
    var opcode: uint8 := byte.value;
    match opcode {
      case 0x06 => r := Ok(Deref(m.wordSize, false));
      case 0x08 => r := ReadConst(m, stream, 1, false);
      case 0x09 => r := ReadConst(m, stream, 1, true);
      case 0x0a => r := ReadConst(m, stream, 2, false);
      case 0x0b => r := ReadConst(m, stream, 2, true);
      case 0x0c => r := ReadConst(m, stream, 4, false);
      case 0x0d => r := ReadConst(m, stream, 4, true);
      case 0x0e => r := ReadConst(m, stream, 8, false);
      case 0x0f => r := ReadConst(m, stream, 8, true);
      case 0x10 => r := ReadLeb(m, stream, false);
      case 0x11 => r := ReadLeb(m, stream, true);
      case 0x12 => r := Ok(Dup);
      case 0x13 => r := Ok(Drop);
      case 0x14 => r := Ok(Pick(1));
      case 0x15 =>
        var index := stream.ReadUint(1, m.bigEndian);
        r := if index.None? then Err(EINVAL) else Ok(Pick(index.value));
      case 0x16 => r := Ok(Swap);
      case 0x17 => r := Ok(Rot);
      case 0x18 => r := Ok(Deref(m.wordSize, true));
      case 0x19 => r := Ok(Unary(Abs));
      case 0x1f => r := Ok(Unary(Neg));
      case 0x20 => r := Ok(Unary(Not));
      case 0x23 =>
        var addend := stream.ReadUleb();
        r := if addend.None? then Err(EINVAL) else Ok(PlusConst(m.Word(addend.value)));
      case 0x28 => r := ReadJump(m, stream, true);
      case 0x2f => r := ReadJump(m, stream, false);
      case 0x92 => r := ReadRegisterX(m, stream);
      case 0x94 => r := ReadDerefSize(m, stream, false);
      case 0x95 => r := ReadDerefSize(m, stream, true);
      case 0x96 => r := Ok(Nop);
      case _ =>
        if 0x30 <= opcode < 0x50 {
          r := Ok(Push(opcode - 0x30));
        } else if 0x70 <= opcode < 0x90 {
          r := ReadRegister(m, stream, opcode - 0x70);
        } else {
          var binary := BinaryOf(opcode);
          r := if binary.None? then Err(ENOTSUP) else Ok(Binary(binary.value));
        }
    }
  }

  method ReadConst(m: Machine, stream: OpStream, size: nat, signed: bool) returns (r: Result<Op>)
    requires stream.Valid()
    modifies stream
    ensures stream.Valid() && Reads(r, DecodeConst(m, stream.Bytes(), old(stream.pos), size, signed), stream.pos)
  {
    var v := stream.ReadUint(size, m.bigEndian);
    if v.None? {
      return Err(EINVAL);
    }
    return Ok(Push(m.Word(if signed then SignExtended(v.value, size) else v.value)));
  }

  method ReadLeb(m: Machine, stream: OpStream, signed: bool) returns (r: Result<Op>)
    requires stream.Valid()
    modifies stream
    ensures stream.Valid() && Reads(r, DecodeLeb(m, stream.Bytes(), old(stream.pos), signed), stream.pos)
  {
    if signed {
      var s := stream.ReadSleb();
      r := if s.None? then Err(EINVAL) else Ok(Push(m.Word(s.value)));
    } else {
      var u := stream.ReadUleb();
      r := if u.None? then Err(EINVAL) else Ok(Push(m.Word(u.value)));
    }
  }

  method ReadRegister(m: Machine, stream: OpStream, regnum: int) returns (r: Result<Op>)
    requires stream.Valid()
    modifies stream
    ensures stream.Valid() && Reads(r, DecodeRegister(m, stream.Bytes(), old(stream.pos), regnum), stream.pos)
  {
    var value := m.registerValue(regnum);
    if value.Err? {
      return Err(value.error);
    }
    var offset := stream.ReadSleb();
    if offset.None? {
      return Err(EINVAL);
    }
    return Ok(Push(m.Word(value.value + offset.value)));
  }

  method ReadRegisterX(m: Machine, stream: OpStream) returns (r: Result<Op>)
    requires stream.Valid()
    modifies stream
    ensures stream.Valid() && Reads(r, DecodeRegisterX(m, stream.Bytes(), old(stream.pos)), stream.pos)
  {
    var regnum := stream.ReadSleb();
    if regnum.None? {
      return Err(EINVAL);
    }
    r := ReadRegister(m, stream, m.SignedWord(regnum.value));
    if r.Ok? {
      r := Ok(PushAndDup(if r.value.Push? then r.value.value else 0));
    }
  }

  method ReadDerefSize(m: Machine, stream: OpStream, addressSpace: bool) returns (r: Result<Op>)
    requires stream.Valid()
    modifies stream
    ensures stream.Valid() && Reads(r, DecodeDerefSize(m, stream.Bytes(), old(stream.pos), addressSpace), stream.pos)
  {
    var size := stream.ReadUint(1, m.bigEndian);
    r := if size.None? then Err(EINVAL) else Ok(Deref(size.value, addressSpace));
  }

  method ReadJump(m: Machine, stream: OpStream, conditional: bool) returns (r: Result<Op>)
    requires stream.Valid()
    modifies stream
    ensures stream.Valid() && Reads(r, DecodeJump(m, stream.Bytes(), old(stream.pos), conditional), stream.pos)
  {
    var raw := stream.ReadUint(2, m.bigEndian);
    if raw.None? {
      return Err(EINVAL);
    }
    var offset := SignExtended(raw.value, 2);
    return Ok(if conditional then Branch(offset) else Jump(offset));
  }

  /** How an opcode leaves the loop body. */
  datatype Progress = Break | Return(error: Error)

  ghost predicate Agrees(p: Progress, o: Outcome, stack: seq<nat>, pos: nat) {
    match o
    case Running(next, s) => p == Break && stack == s && pos == next
    case Ended(Err(e)) => p == Return(e)
    case Ended(Ok(_)) => false
  }

  method PushValue(stack: DwarfStack, v: nat) returns (p: Progress)
    requires stack.Valid()
    modifies stack, stack.mem
    ensures stack.Valid()
    ensures p == (if |old(stack.Contents())| < STACK_SIZE then Break else Return(EINTERNAL))
    ensures p.Break? ==> stack.Contents() == old(stack.Contents()) + [v]
  {
    var ok := stack.Push(v);
    return if ok then Break else Return(EINTERNAL);
  }

  method EvalPlainDeref(m: Machine, size: nat, stack: DwarfStack, ghost pos: nat) returns (p: Progress)
    requires stack.Valid()
    modifies stack, stack.mem
    ensures stack.Valid()
    ensures Agrees(p, Dereference(m, size, pos, old(stack.Contents())), stack.Contents(), pos)
  {
    if size > m.wordSize {
      return Return(EINVAL);
    }
    var addr := stack.Pop();
    if addr.None? {
      return Return(EINTERNAL);
    }
    if size !in {1, 2, 4, 8} {
      return Return(EINVAL);
    }
    var value := m.readMemory(addr.value, size);
    if value.Err? {
      return Return(value.error);
    }
    p := PushValue(stack, m.Word(value.value));
  }

  method EvalDeref(m: Machine, size: nat, addressSpace: bool, stack: DwarfStack, ghost pos: nat) returns (p: Progress)
    requires stack.Valid()
    modifies stack, stack.mem
    ensures stack.Valid()
    ensures Agrees(p, Execute(m, [], Deref(size, addressSpace), pos, old(stack.Contents())), stack.Contents(), pos)
  {
    hide Dereference, Agrees;
    if addressSpace {
      var ok := DropAddressSpace(stack);
      if !ok {
        FailureAgrees(pos, stack.Contents());
        return Return(EINVAL);
      }
    }
    p := EvalPlainDeref(m, size, stack, pos);
  }

  /** The value below the top goes away. */
  method DropAddressSpace(stack: DwarfStack) returns (ok: bool)
    requires stack.Valid()
    modifies stack, stack.mem
    ensures stack.Valid()
    ensures
      var s := old(stack.Contents());
      && ok == (|s| >= 2)
      && (ok ==> stack.Contents() == Below(s, 2) + [Top(s, 1)])
  {
    ghost var s := stack.Contents();
    ok := stack.Swap();
    if ok {
      ok := stack.Drop();
      assert stack.Contents() == Below(s, 2) + [Top(s, 1)];
    }
  }

  lemma FailureAgrees(pos: nat, s: seq<nat>)
    ensures Agrees(Return(EINVAL), Ended(Err(EINVAL)), s, pos)
  {
  }

  method EvalBinary(m: Machine, op: BinaryOp, stack: DwarfStack, ghost pos: nat) returns (p: Progress)
    requires stack.Valid()
    modifies stack, stack.mem
    ensures stack.Valid()
    ensures Agrees(p, Execute(m, [], Binary(op), pos, old(stack.Contents())), stack.Contents(), pos)
  {
    hide BinaryValue, UnaryValue, Dereference, Jumped, Machine.Word, DwarfStack.Contents;
    var v1 := stack.Pop();
    if v1.None? {
      return Return(EINTERNAL);
    }
    var v2 := stack.Pop();
    if v2.None? {
      return Return(EINTERNAL);
    }
    var v := BinaryValue(m, op, v2.value, v1.value);
    if v.Err? {
      return Return(v.error);
    }
    p := PushValue(stack, v.value);
  }

  method EvalUnary(m: Machine, op: Op, stack: DwarfStack, ghost pos: nat) returns (p: Progress)
    requires stack.Valid() && (op.Unary? || op.PlusConst?)
    modifies stack, stack.mem
    ensures stack.Valid()
    ensures Agrees(p, Execute(m, [], op, pos, old(stack.Contents())), stack.Contents(), pos)
  {
    hide UnaryValue, BinaryValue, Dereference, Jumped, Machine.Word, DwarfStack.Contents;
    var v := stack.Pop();
    if v.None? {
      return Return(EINTERNAL);
    }
    p := PushValue(stack, if op.Unary? then UnaryValue(m, op.unary, v.value) else m.Word(op.addend + v.value));
  }

  method EvalJump(op: Op, stream: OpStream, stack: DwarfStack, ghost m: Machine) returns (p: Progress)
    requires stack.Valid() && stream.Valid() && (op.Jump? || op.Branch?)
    modifies stack, stack.mem, stream
    ensures stack.Valid() && stream.Valid()
    ensures Agrees(p, Execute(m, stream.Bytes(), op, old(stream.pos), old(stack.Contents())), stack.Contents(), stream.pos)
  {
    var taken := true;
    if op.Branch? {
      var cond := stack.Pop();
      if cond.None? {
        return Return(EINTERNAL);
      }
      taken := cond.value != 0;
    }
    if taken {
      var ok := stream.Skip(op.offset);
      if !ok {
        return Return(EINVAL);
      }
    }
    return Break;
  }

  /** The operations that only move values on the stack. */
  method EvalShuffle(m: Machine, op: Op, stack: DwarfStack, ghost pos: nat) returns (p: Progress)
    requires stack.Valid() && (op.Push? || op.PushAndDup? || op.Dup? || op.Drop? || op.Pick? || op.Swap? || op.Rot? || op.Nop?)
    modifies stack, stack.mem
    ensures stack.Valid()
    ensures Agrees(p, Execute(m, [], op, pos, old(stack.Contents())), stack.Contents(), pos)
  {
    var ok := true;
    match op {
      case Push(v) =>
        p := PushValue(stack, v);
        return;
      case PushAndDup(v) =>
        p := PushValue(stack, v);
        if p.Return? {
          return;
        }
        ok := stack.Dup();
      case Dup => ok := stack.Dup();
      case Drop => ok := stack.Drop();
      case Pick(index) => ok := stack.Pick(index);
      case Swap => ok := stack.Swap();
      case Rot => ok := stack.Rotate();
      case Nop =>
    }
    return if ok then Break else Return(EINVAL);
  }

  /** The jumps are the only operations that look at the program. */
  lemma ProgramDoesNotMatter(m: Machine, bytes: seq<uint8>, op: Op, pos: nat, s: seq<nat>)
    requires !op.Jump? && !op.Branch?
    ensures Execute(m, bytes, op, pos, s) == Execute(m, [], op, pos, s)
  {
  }

  method EvalOp(m: Machine, op: Op, stream: OpStream, stack: DwarfStack) returns (p: Progress)
    requires stack.Valid() && stream.Valid()
    modifies stack, stack.mem, stream
    ensures stack.Valid() && stream.Valid()
    ensures Agrees(p, Execute(m, stream.Bytes(), op, old(stream.pos), old(stack.Contents())), stack.Contents(), stream.pos)
  {
    hide Execute;
    if op.Jump? || op.Branch? {
      p := EvalJump(op, stream, stack, m);
      return;
    }
    ProgramDoesNotMatter(m, stream.Bytes(), op, stream.pos, stack.Contents());
    if op.Deref? {
      p := EvalDeref(m, op.size, op.addressSpace, stack, stream.pos);
    } else if op.Binary? {
      p := EvalBinary(m, op.binary, stack, stream.pos);
    } else if op.Unary? || op.PlusConst? {
      p := EvalUnary(m, op, stack, stream.pos);
    } else {
      p := EvalShuffle(m, op, stack, stream.pos);
    }
  }

  /** The values pushed before the first opcode. */
  method PushInitial(stack: DwarfStack, initial: seq<nat>) returns (p: Progress)
    requires stack.Valid() && stack.Contents() == []
    modifies stack, stack.mem
    ensures stack.Valid()
    ensures p == (if |initial| <= STACK_SIZE then Break else Return(EINTERNAL))
    ensures p.Break? ==> stack.Contents() == initial
  {
    for i := 0 to |initial|
      invariant stack.Valid() && i <= STACK_SIZE && stack.Contents() == initial[..i]
    {
      p := PushValue(stack, initial[i]);
      if p.Return? {
        return;
      }
    }
    assert initial[..|initial|] == initial;
    return Break;
  }

  /** What the evaluation of `bytes` gives within `fuel` steps; `None` if it is still running. */
  function Evaluated(m: Machine, bytes: seq<uint8>, initial: seq<nat>, fuel: nat): Option<Result<nat>> {
    if |initial| > STACK_SIZE then Some(Err(EINTERNAL))
    else
      match Run(m, bytes, Running(0, initial), fuel)
      case Running(_, _) => None
      case Ended(r) => Some(r)
  }

  /**
   * `dwarf_expression_eval` gives the result of the pure interpreter. `fuel` bounds the number of opcodes, because
   * jumps can make a program run for ever.
   */
  method ExpressionEval(m: Machine, base: nat, mem: seq<uint8>, address: nat, offset: int, length: nat,
      initial: seq<nat>, fuel: nat)
    returns (r: Option<Result<nat>>)
    requires base + |mem| <= ADDRESS_MAX && address <= ADDRESS_MAX
    ensures
      var start := StreamStart(base, |mem|, address, offset, length);
      if start.Err? then r == Some(Err(start.error))
      else r == Evaluated(m, mem[start.value - base..start.value - base + length], initial, fuel)
  {
    hide Decode, Execute;
    var stack := new DwarfStack();
    var start := StreamStart(base, |mem|, address, offset, length);
    if start.Err? {
      return Some(Err(start.error));
    }
    var stream := new OpStream(mem, start.value - base, length);
    var p := PushInitial(stack, initial);
    if p.Return? {
      return Some(Err(p.error));
    }
    ghost var bytes := stream.Bytes();
    var n := 0;
    while n < fuel
      invariant n <= fuel && stack.Valid() && stream.Valid() && fresh(stack) && fresh(stack.mem) && fresh(stream)
      invariant Run(m, bytes, Running(0, initial), fuel)
        == Run(m, bytes, Running(stream.pos, stack.Contents()), fuel - n)
    {
      if stream.pos >= stream.length {
        var top := stack.Pop();
        return Some(if top.None? then Err(EINVAL) else Ok(top.value));
      }
      var op := ReadOp(m, stream);
      if op.Err? {
        return Some(Err(op.error));
      }
      p := EvalOp(m, op.value, stream, stack);
      if p.Return? {
        return Some(Err(p.error));
      }
      n := n + 1;
    }
    return None;
  }
}

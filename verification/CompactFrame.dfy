/** `cfe_entry_apply`: undoes the prologue that a compact unwind entry describes. */
module CompactFrame {
  import opened Bytes
  import opened Common

  const SAVED_REGISTER_MAX := 6

  /** The target's memory. */
  type Memory = map<nat, uint8>

  datatype Arch = Arch(gregSize: nat, nonvolatile: set<PlReg>) {
    predicate Valid() {
      gregSize == 4 || gregSize == 8
    }

    function Modulus(): nat {
      if gregSize == 4 then 0x1_0000_0000 else TWO_TO_64
    }
  }

  datatype Kind = FramePointer | FramelessImmediate | FramelessIndirect | Dwarf | NoUnwind

  /** The register list may be sparse. */
  datatype Entry = Entry(kind: Kind, stackOffset: int, stackAdjust: uint32, registers: seq<Option<PlReg>>) {
    predicate Valid() {
      |registers| <= SAVED_REGISTER_MAX && -OFF_MAX <= stackOffset <= OFF_MAX
    }
  }

  predicate Mapped(mem: Memory, address: nat, len: nat) {
    forall x :: address <= x < address + len ==> x in mem
  }

  /** `task_memcpy`. */
  function ReadBytes(mem: Memory, address: nat, offset: int, len: nat): (r: Result<seq<uint8>>)
    requires address <= ADDRESS_MAX
    ensures r.Ok? ==> |r.value| == len
  {
    match ApplyOffset(address, offset)
    case None => Err(ENOMEM)
    case Some(target) =>
      if Mapped(mem, target, len) then Ok(seq(len, i requires 0 <= i < len && Mapped(mem, target, len) => mem[target + i]))
      else Err(ENOTFOUND)
  }

  function ReadWord(a: Arch, mem: Memory, address: nat, offset: int): Result<nat>
    requires address <= ADDRESS_MAX
  {
    match ReadBytes(mem, address, offset, a.gregSize)
    case Err(e) => Err(e)
    case Ok(bytes) => Ok(LittleEndian(bytes))
  }

  /** `set_reg`: a 32-bit state keeps 32 bits. */
  function SetReg(a: Arch, state: ThreadState, r: PlReg, v: int): ThreadState
    requires a.Valid()
  {
    state[r := v % a.Modulus()]
  }

  function Address(x: int): nat {
    x % TWO_TO_64
  }

  /** The caller's state before the listed registers are restored, and where those are saved. */
  datatype Popped = Popped(state: ThreadState, savedAt: nat)

  function ClearVolatile(a: Arch, state: ThreadState): ThreadState {
    map r | r in state && r in a.nonvolatile :: state[r]
  }

  function PopFrame(a: Arch, mem: Memory, now: ThreadState, entry: Entry): Result<Popped>
    requires a.Valid() && forall r :: r in now ==> now[r] <= ADDRESS_MAX
  {
    if REG_FP !in now then Err(ENOTFOUND)
    else
      var fp := now[REG_FP];
      match ApplyOffset(fp, 2 * a.gregSize)
      case None => Err(EINVAL)
      case Some(sp) =>
        match ReadBytes(mem, fp, 0, 2 * a.gregSize)
        case Err(e) => Err(e)
        case Ok(bytes) =>
          var state := SetReg(a, ClearVolatile(a, now), REG_SP, sp);
          var state := SetReg(a, state, REG_FP, LittleEndian(bytes[..a.gregSize]));
          Ok(Popped(SetReg(a, state, REG_IP, LittleEndian(bytes[a.gregSize..])), Address(fp + entry.stackOffset)))
  }

  /** The stack size is in the entry, or in an instruction of the function. */
  function StackSize(mem: Memory, function_: nat, entry: Entry): Result<nat>
    requires function_ <= ADDRESS_MAX
  {
    if entry.kind.FramelessIndirect? then
      match ReadBytes(mem, function_, entry.stackOffset, 4)
      case Err(e) => Err(e)
      case Ok(bytes) => Ok((LittleEndian(bytes) + entry.stackAdjust) % 0x1_0000_0000)
    else Ok(Address(entry.stackOffset))
  }

  function PopFrameless(a: Arch, mem: Memory, function_: nat, now: ThreadState, entry: Entry): Result<Popped>
    requires a.Valid() && function_ <= ADDRESS_MAX && forall r :: r in now ==> now[r] <= ADDRESS_MAX
  {
    if REG_SP !in now then Err(ENOTFOUND)
    else
      match StackSize(mem, function_, entry)
      case Err(e) => Err(e)
      case Ok(size) =>
        var returnAt := Address(now[REG_SP] + size - a.gregSize);
        match ReadWord(a, mem, returnAt, 0)
        case Err(e) => Err(e)
        case Ok(ip) =>
          var state := SetReg(a, ClearVolatile(a, now), REG_SP, Address(returnAt + a.gregSize));
          Ok(Popped(SetReg(a, state, REG_IP, ip), Address(returnAt - a.gregSize * |entry.registers|)))
  }

  function Pop(a: Arch, mem: Memory, function_: nat, now: ThreadState, entry: Entry): Result<Popped>
    requires a.Valid() && function_ <= ADDRESS_MAX && forall r :: r in now ==> now[r] <= ADDRESS_MAX
  {
    match entry.kind
    case FramePointer => PopFrame(a, mem, now, entry)
    case FramelessImmediate => PopFrameless(a, mem, function_, now, entry)
    case FramelessIndirect => PopFrameless(a, mem, function_, now, entry)
    case Dwarf => Err(ENOTSUP)
    case NoUnwind => Err(ENOTSUP)
  }

  /** The first `n` listed registers are restored. */
  function Restore(a: Arch, mem: Memory, popped: Popped, registers: seq<Option<PlReg>>, n: nat): Result<ThreadState>
    requires a.Valid() && n <= |registers| && popped.savedAt <= ADDRESS_MAX
  {
    if n == 0 then Ok(popped.state)
    else
      match Restore(a, mem, popped, registers, n - 1)
      case Err(e) => Err(e)
      case Ok(state) =>
        match registers[n - 1]
        case None => Ok(state)
        case Some(r) =>
          match ReadWord(a, mem, popped.savedAt, (n - 1) * a.gregSize)
          case Err(e) => Err(e)
          case Ok(v) => Ok(SetReg(a, state, r, v))
  }

  function Unwind(a: Arch, mem: Memory, function_: nat, now: ThreadState, entry: Entry): Result<ThreadState>
    requires a.Valid() && function_ <= ADDRESS_MAX && forall r :: r in now ==> now[r] <= ADDRESS_MAX
  {
    match Pop(a, mem, function_, now, entry)
    case Err(e) => Err(e)
    case Ok(popped) => Restore(a, mem, popped, entry.registers, |entry.registers|)
  }

  lemma {:induction false} RestoreFails(a: Arch, mem: Memory, popped: Popped, registers: seq<Option<PlReg>>, n: nat,
      m: nat)
    requires a.Valid() && n <= m <= |registers| && popped.savedAt <= ADDRESS_MAX
    requires Restore(a, mem, popped, registers, n).Err?
    ensures Restore(a, mem, popped, registers, m) == Restore(a, mem, popped, registers, n)
  {
    if n < m {
      RestoreFails(a, mem, popped, registers, n, m - 1);
    }
  }

  method EntryApply(a: Arch, mem: Memory, function_: nat, now: ThreadState, entry: Entry)
    returns (result: Result<ThreadState>)
    requires a.Valid() && entry.Valid() && function_ <= ADDRESS_MAX && forall r :: r in now ==> now[r] <= ADDRESS_MAX
    ensures result == Unwind(a, mem, function_, now, entry)
  {
    hide LittleEndian;
    var next := ClearVolatile(a, now);
    var savedAt: nat := 0;
    match entry.kind {
      case FramePointer =>
        if REG_FP !in now {
          return Err(ENOTFOUND);
        }
        var fp := now[REG_FP];
        savedAt := Address(fp + entry.stackOffset);
        var newSp := ApplyOffset(fp, a.gregSize * 2);
        if newSp.None? {
          return Err(EINVAL);
        }
        next := SetReg(a, next, REG_SP, newSp.value);
        var frame := ReadBytes(mem, fp, 0, a.gregSize * 2);
        if frame.Err? {
          return Err(frame.error);
        }
        next := SetReg(a, next, REG_FP, LittleEndian(frame.value[..a.gregSize]));
        next := SetReg(a, next, REG_IP, LittleEndian(frame.value[a.gregSize..]));
      case FramelessImmediate =>
        var popped := ApplyFrameless(a, mem, function_, now, entry);
        if popped.Err? {
          return Err(popped.error);
        }
        next, savedAt := popped.value.state, popped.value.savedAt;
      case FramelessIndirect =>
        var popped := ApplyFrameless(a, mem, function_, now, entry);
        if popped.Err? {
          return Err(popped.error);
        }
        next, savedAt := popped.value.state, popped.value.savedAt;
      case Dwarf => return Err(ENOTSUP);
      case NoUnwind => return Err(ENOTSUP);
    }
    result := RestoreRegisters(a, mem, next, savedAt, entry.registers);
  }

  method ApplyFrameless(a: Arch, mem: Memory, function_: nat, now: ThreadState, entry: Entry)
    returns (r: Result<Popped>)
    requires a.Valid() && entry.Valid() && function_ <= ADDRESS_MAX && forall r :: r in now ==> now[r] <= ADDRESS_MAX
    requires entry.kind.FramelessImmediate? || entry.kind.FramelessIndirect?
    ensures r == PopFrameless(a, mem, function_, now, entry)
  {
    var next := ClearVolatile(a, now);
    if REG_SP !in now {
      return Err(ENOTFOUND);
    }
    var stackSize: nat := Address(entry.stackOffset);
    if entry.kind.FramelessIndirect? {
      var indirect := ReadBytes(mem, function_, entry.stackOffset, 4);
      if indirect.Err? {
        return Err(indirect.error);
      }
      stackSize := (LittleEndian(indirect.value) + entry.stackAdjust) % 0x1_0000_0000;
    }
    var sp := now[REG_SP];
    var retaddr: nat := Address(sp + stackSize - a.gregSize);
    var savedRegAddr: nat := Address(retaddr - a.gregSize * |entry.registers|);
    next := SetReg(a, next, REG_SP, Address(retaddr + a.gregSize));
    var ip := ReadWord(a, mem, retaddr, 0);
    if ip.Err? {
      return Err(ip.error);
    }
    next := SetReg(a, next, REG_IP, ip.value);
    return Ok(Popped(next, savedRegAddr));
  }

  method RestoreRegisters(a: Arch, mem: Memory, state: ThreadState, savedAt: nat, registers: seq<Option<PlReg>>)
    returns (result: Result<ThreadState>)
    requires a.Valid() && savedAt <= ADDRESS_MAX
    ensures result == Restore(a, mem, Popped(state, savedAt), registers, |registers|)
  {
    var next := state;
    for i := 0 to |registers|
      invariant Restore(a, mem, Popped(state, savedAt), registers, i) == Ok(next)
    {
      if registers[i].Some? {
        var v := ReadWord(a, mem, savedAt, i * a.gregSize);
        if v.Err? {
          RestoreFails(a, mem, Popped(state, savedAt), registers, i + 1, |registers|);
          return Err(v.error);
        }
        next := SetReg(a, next, registers[i].value, v.value);
      }
    }
    return Ok(next);
  }

  // What the caller gets back

  predicate Listed(entry: Entry, r: PlReg) {
    Some(r) in entry.registers
  }

  /** The word at `address` of the frame. */
  predicate Holds(a: Arch, mem: Memory, address: int, v: nat) {
    0 <= address <= ADDRESS_MAX && ReadWord(a, mem, address, 0) == Ok(v)
  }

  /** The listed registers lie side by side from `address` on. */
  predicate SavedFrom(a: Arch, mem: Memory, address: int, entry: Entry, caller: ThreadState) {
    forall i {:trigger entry.registers[i]} :: 0 <= i < |entry.registers| && entry.registers[i].Some? ==>
      entry.registers[i].value in caller && Holds(a, mem, address + i * a.gregSize, caller[entry.registers[i].value])
  }

  /** An instruction of the target has the four bytes of `v` as its operand at `address`. */
  predicate OperandIs(mem: Memory, address: int, v: nat) {
    && 0 <= address <= ADDRESS_MAX && Mapped(mem, address, 4)
    && [mem[address], mem[address + 1], mem[address + 2], mem[address + 3]] == Field(v, 4, false)
  }

  /**
   * The frame has `size` bytes: the entry says so, or the function subtracts a number from the stack pointer that the
   * entry's adjustment makes up to this size.
   */
  predicate SizeIs(mem: Memory, function_: nat, entry: Entry, size: int) {
    0 <= size
    && if entry.kind.FramelessIndirect? then
         entry.stackAdjust <= size < 0x1_0000_0000
         && OperandIs(mem, function_ + entry.stackOffset, size - entry.stackAdjust)
       else size == entry.stackOffset
  }

  lemma OperandRead(mem: Memory, function_: nat, offset: int, v: nat)
    requires function_ <= ADDRESS_MAX && v < 0x1_0000_0000 && OperandIs(mem, function_ + offset, v)
    ensures
      var r := ReadBytes(mem, function_, offset, 4);
      r.Ok? && LittleEndian(r.value) == v
  {
    hide LittleEndian, Field;
    var r := ReadBytes(mem, function_, offset, 4);
    assert r.value == Field(v, 4, false);
    PowerIsLimit(4);
    FieldRead(v, 4, false);
  }

  lemma SizeRead(mem: Memory, function_: nat, entry: Entry, size: int)
    requires function_ <= ADDRESS_MAX && size < TWO_TO_64 && SizeIs(mem, function_, entry, size)
    ensures StackSize(mem, function_, entry) == Ok(size)
  {
    hide OperandIs, LittleEndian, ReadBytes;
    if entry.kind.FramelessIndirect? {
      OperandRead(mem, function_, entry.stackOffset, size - entry.stackAdjust);
    }
  }

  ghost predicate Words(a: Arch, state: ThreadState)
  {
    forall r :: r in state ==> state[r] < a.Modulus()
  }

  /**
   * The frame is laid out as the entry describes: `caller` is the state that the caller had before it called the
   * function in which the thread is now in state `callee`.
   */
  ghost predicate LaidOut(a: Arch, mem: Memory, function_: nat, entry: Entry, callee: ThreadState, caller: ThreadState)
    requires a.Valid() && function_ <= ADDRESS_MAX
  {
    && Words(a, caller) && REG_SP in caller && REG_IP in caller && REG_SP in callee
    && Holds(a, mem, caller[REG_SP] - a.gregSize, caller[REG_IP])
    && (match entry.kind
        case FramePointer =>
          && REG_FP in caller && REG_FP in callee && callee[REG_FP] == caller[REG_SP] - 2 * a.gregSize
          && Holds(a, mem, callee[REG_FP], caller[REG_FP])
          && 0 <= callee[REG_FP] + entry.stackOffset <= ADDRESS_MAX
          && SavedFrom(a, mem, callee[REG_FP] + entry.stackOffset, entry, caller)
        case Dwarf => false
        case NoUnwind => false
        case _ =>
          && callee[REG_SP] <= caller[REG_SP] && SizeIs(mem, function_, entry, caller[REG_SP] - callee[REG_SP])
          && 0 <= caller[REG_SP] - a.gregSize - a.gregSize * |entry.registers|
          && SavedFrom(a, mem, caller[REG_SP] - a.gregSize - a.gregSize * |entry.registers|, entry, caller))
    && (forall r :: r in callee && r in a.nonvolatile && !Listed(entry, r) && r != REG_SP
                    && !(r == REG_FP && entry.kind.FramePointer?) ==>
          r in caller && callee[r] == caller[r])
  }

  /** `state` knows some registers of `full`, and no wrong ones. */
  predicate PartOf(state: ThreadState, full: ThreadState) {
    forall r :: r in state ==> r in full && state[r] == full[r]
  }

  /** The one register that popping the frame starts from. */
  predicate Suffices(now: ThreadState, entry: Entry) {
    if entry.kind.FramePointer? then REG_FP in now else REG_SP in now
  }

  /** The two words that the prologue of a framed function pushes. */
  lemma PairRead(a: Arch, mem: Memory, address: nat, v: nat, w: nat)
    requires a.Valid() && Holds(a, mem, address, v) && Holds(a, mem, address + a.gregSize, w)
    ensures address <= ADDRESS_MAX
    ensures
      var r := ReadBytes(mem, address, 0, 2 * a.gregSize);
      r.Ok? && LittleEndian(r.value[..a.gregSize]) == v && LittleEndian(r.value[a.gregSize..]) == w
  {
    hide LittleEndian;
    var first, second := ReadBytes(mem, address, 0, a.gregSize), ReadBytes(mem, address + a.gregSize, 0, a.gregSize);
    var both := ReadBytes(mem, address, 0, 2 * a.gregSize);
    assert both.value[..a.gregSize] == first.value;
    assert both.value[a.gregSize..] == second.value;
  }

  lemma OffsetRead(a: Arch, mem: Memory, address: nat, offset: nat)
    requires a.Valid() && address + offset <= ADDRESS_MAX
    ensures ReadWord(a, mem, address, offset) == ReadWord(a, mem, address + offset, 0)
  {
  }

  /** The state before the listed registers are restored is right as far as it goes, except for them. */
  ghost predicate RightBut(entry: Entry, state: ThreadState, caller: ThreadState) {
    forall r :: r in state ==> Listed(entry, r) || (r in caller && state[r] == caller[r])
  }

  lemma SetWord(a: Arch, state: ThreadState, r: PlReg, v: nat)
    requires a.Valid() && v < a.Modulus()
    ensures SetReg(a, state, r, v) == state[r := v]
  {
  }

  /** The common start of all states: what the callee has preserved. */
  lemma Preserved(a: Arch, mem: Memory, function_: nat, entry: Entry, now: ThreadState, callee: ThreadState,
      caller: ThreadState)
    requires a.Valid() && function_ <= ADDRESS_MAX
    requires LaidOut(a, mem, function_, entry, callee, caller) && PartOf(now, callee)
    ensures ClearVolatile(a, now).Keys == now.Keys * a.nonvolatile
    ensures forall r :: r in ClearVolatile(a, now) && r != REG_SP && !(r == REG_FP && entry.kind.FramePointer?) ==>
      Listed(entry, r) || (r in caller && now[r] == caller[r])
  {
    hide SavedFrom, Holds, Words, SizeIs;
  }

  lemma FramePopped(a: Arch, mem: Memory, function_: nat, entry: Entry, now: ThreadState, callee: ThreadState,
      caller: ThreadState)
    requires a.Valid() && entry.Valid() && function_ <= ADDRESS_MAX && entry.kind.FramePointer?
    requires LaidOut(a, mem, function_, entry, callee, caller)
    requires PartOf(now, callee) && REG_FP in now && forall r :: r in now ==> now[r] <= ADDRESS_MAX
    ensures REG_SP in caller && REG_FP in caller && REG_IP in caller
    ensures
      var p := Pop(a, mem, function_, now, entry);
      && p.Ok? && p.value.savedAt <= ADDRESS_MAX && SavedFrom(a, mem, p.value.savedAt, entry, caller)
      && p.value.state ==
           ClearVolatile(a, now)[REG_SP := caller[REG_SP]][REG_FP := caller[REG_FP]][REG_IP := caller[REG_IP]]
  {
    hide LittleEndian, SavedFrom, Listed, ClearVolatile, SetReg, ReadBytes;
    var start := ClearVolatile(a, now);
    PairRead(a, mem, callee[REG_FP], caller[REG_FP], caller[REG_IP]);
    SetWord(a, start, REG_SP, caller[REG_SP]);
    SetWord(a, start[REG_SP := caller[REG_SP]], REG_FP, caller[REG_FP]);
    SetWord(a, start[REG_SP := caller[REG_SP]][REG_FP := caller[REG_FP]], REG_IP, caller[REG_IP]);
  }

  /** The address arithmetic does not wrap in a frame that is laid out as described. */
  lemma FramelessAddresses(a: Arch, entry: Entry, sp: nat, size: nat, callerSp: nat)
    requires a.Valid() && sp + size == callerSp < a.Modulus()
      && callerSp - a.gregSize - a.gregSize * |entry.registers| >= 0
    ensures Address(sp + size - a.gregSize) == callerSp - a.gregSize
    ensures Address(callerSp - a.gregSize + a.gregSize) == callerSp
    ensures Address(callerSp - a.gregSize - a.gregSize * |entry.registers|) ==
            callerSp - a.gregSize - a.gregSize * |entry.registers| <= ADDRESS_MAX
  {
  }

  lemma FramelessPopped(a: Arch, mem: Memory, function_: nat, entry: Entry, now: ThreadState, callee: ThreadState,
      caller: ThreadState)
    requires a.Valid() && entry.Valid() && function_ <= ADDRESS_MAX && !entry.kind.FramePointer?
    requires LaidOut(a, mem, function_, entry, callee, caller)
    requires PartOf(now, callee) && REG_SP in now && forall r :: r in now ==> now[r] <= ADDRESS_MAX
    ensures REG_SP in caller && REG_IP in caller
    ensures
      var p := Pop(a, mem, function_, now, entry);
      && p.Ok? && p.value.savedAt <= ADDRESS_MAX && SavedFrom(a, mem, p.value.savedAt, entry, caller)
      && p.value.state == ClearVolatile(a, now)[REG_SP := caller[REG_SP]][REG_IP := caller[REG_IP]]
  {
    hide LittleEndian, SavedFrom, Listed, ClearVolatile, SetReg, ReadWord, StackSize, SizeIs, Address;
    var start := ClearVolatile(a, now);
    SetWord(a, start, REG_SP, caller[REG_SP]);
    SetWord(a, start[REG_SP := caller[REG_SP]], REG_IP, caller[REG_IP]);
    SizeRead(mem, function_, entry, caller[REG_SP] - callee[REG_SP]);
    FramelessAddresses(a, entry, now[REG_SP], StackSize(mem, function_, entry).value, caller[REG_SP]);
  }

  lemma PopsRight(a: Arch, mem: Memory, function_: nat, entry: Entry, now: ThreadState, callee: ThreadState,
      caller: ThreadState)
    requires a.Valid() && entry.Valid() && function_ <= ADDRESS_MAX
    requires LaidOut(a, mem, function_, entry, callee, caller)
    requires PartOf(now, callee) && Suffices(now, entry) && forall r :: r in now ==> now[r] <= ADDRESS_MAX
    ensures
      var p := Pop(a, mem, function_, now, entry);
      && p.Ok? && p.value.savedAt <= ADDRESS_MAX && RightBut(entry, p.value.state, caller)
      && p.value.state.Keys == Known(a, entry, now)
      && SavedFrom(a, mem, p.value.savedAt, entry, caller)
  {
    hide SavedFrom, Listed, Pop, LaidOut, PartOf;
    Preserved(a, mem, function_, entry, now, callee, caller);
    if entry.kind.FramePointer? {
      FramePopped(a, mem, function_, entry, now, callee, caller);
    } else {
      FramelessPopped(a, mem, function_, entry, now, callee, caller);
    }
  }

  /** What is known of the caller before the listed registers are restored. */
  function Known(a: Arch, entry: Entry, now: ThreadState): set<PlReg> {
    (now.Keys * a.nonvolatile) + {REG_SP, REG_IP} + if entry.kind.FramePointer? then {REG_FP} else {}
  }

  function ListedIn(registers: seq<Option<PlReg>>): set<PlReg> {
    set i | 0 <= i < |registers| && registers[i].Some? :: registers[i].value
  }

  lemma SavedWord(a: Arch, mem: Memory, address: nat, entry: Entry, caller: ThreadState, i: nat)
    requires a.Valid() && Words(a, caller) && SavedFrom(a, mem, address, entry, caller) && address <= ADDRESS_MAX
    requires i < |entry.registers| && entry.registers[i].Some?
    ensures
      var r := entry.registers[i].value;
      r in caller && caller[r] < a.Modulus() && ReadWord(a, mem, address, i * a.gregSize) == Ok(caller[r])
  {
    OffsetRead(a, mem, address, i * a.gregSize);
  }

  lemma {:induction false} RestoresRight(a: Arch, mem: Memory, p: Popped, entry: Entry, caller: ThreadState, n: nat)
    requires a.Valid() && entry.Valid() && p.savedAt <= ADDRESS_MAX && n <= |entry.registers|
    requires Words(a, caller) && SavedFrom(a, mem, p.savedAt, entry, caller)
    ensures
      var r := Restore(a, mem, p, entry.registers, n);
      && r.Ok? && r.value.Keys == p.state.Keys + ListedIn(entry.registers[..n])
      && (forall x :: x in r.value ==>
            if x in ListedIn(entry.registers[..n]) then x in caller && r.value[x] == caller[x]
            else x in p.state && r.value[x] == p.state[x])
  {
    hide ReadWord, SavedFrom, Words, SetReg;
    var regs := entry.registers;
    if n > 0 {
      RestoresRight(a, mem, p, entry, caller, n - 1);
      ListedSnoc(regs, n);
      if regs[n - 1].Some? {
        var r := regs[n - 1].value;
        SavedWord(a, mem, p.savedAt, entry, caller, n - 1);
        SetWord(a, Restore(a, mem, p, regs, n - 1).value, r, caller[r]);
      }
    }
  }

  lemma ListedSnoc(registers: seq<Option<PlReg>>, n: nat)
    requires 0 < n <= |registers|
    ensures ListedIn(registers[..n]) ==
      ListedIn(registers[..n - 1]) + if registers[n - 1].Some? then {registers[n - 1].value} else {}
  {
  }

  lemma ListedIff(entry: Entry)
    ensures forall r :: r in ListedIn(entry.registers) <==> Listed(entry, r)
  {
  }

  /**
   * Applying an entry to a frame that it describes restores the caller's stack pointer, instruction pointer, frame
   * pointer and every listed register. Besides those, the new state has exactly the non-volatile registers that were
   * available, and everything in it is right.
   */
  lemma UnwindRestores(a: Arch, mem: Memory, function_: nat, entry: Entry, now: ThreadState, callee: ThreadState,
      caller: ThreadState)
    requires a.Valid() && entry.Valid() && function_ <= ADDRESS_MAX
    requires LaidOut(a, mem, function_, entry, callee, caller)
    requires PartOf(now, callee) && Suffices(now, entry) && forall r :: r in now ==> now[r] <= ADDRESS_MAX
    ensures
      var r := Unwind(a, mem, function_, now, entry);
      && r.Ok? && PartOf(r.value, caller)
      && r.value.Keys == Known(a, entry, now) + ListedIn(entry.registers)
  {
    hide LittleEndian, SavedFrom, Restore, Pop, Known;
    PopsRight(a, mem, function_, entry, now, callee, caller);
    var p := Pop(a, mem, function_, now, entry).value;
    RestoresRight(a, mem, p, entry, caller, |entry.registers|);
    assert entry.registers[..|entry.registers|] == entry.registers;
    ListedIff(entry);
  }

  /** One frame of a stack, with the address of its function. */
  datatype Frame = Frame(function_: nat, entry: Entry)

  /** The states of the callers, innermost first. */
  ghost predicate Stacked(a: Arch, mem: Memory, frames: seq<Frame>, states: seq<ThreadState>)
    requires a.Valid()
  {
    |states| == |frames| + 1
    && forall i :: 0 <= i < |frames| ==>
      && frames[i].function_ <= ADDRESS_MAX && frames[i].entry.Valid()
      && LaidOut(a, mem, frames[i].function_, frames[i].entry, states[i], states[i + 1])
  }

  /** Unwinds frame after frame, as long as that works. */
  ghost function UnwindAll(a: Arch, mem: Memory, frames: seq<Frame>, now: ThreadState): seq<ThreadState>
    requires a.Valid() && forall f :: f in frames ==> f.function_ <= ADDRESS_MAX
  {
    if frames == [] || (exists r :: r in now && now[r] > ADDRESS_MAX) then [now]
    else
      match Unwind(a, mem, frames[0].function_, now, frames[0].entry)
      case Err(_) => [now]
      case Ok(next) => [now] + UnwindAll(a, mem, frames[1..], next)
  }

  /** The frame pointer is needed for the frames that have one. */
  predicate SufficeAll(now: ThreadState, frames: seq<Frame>) {
    REG_SP in now && (REG_FP in now || forall f :: f in frames ==> !f.entry.kind.FramePointer?)
  }

  /** A stack of any depth is unwound to its end, and every caller's state is right. */
  lemma {:induction false} StackUnwinds(a: Arch, mem: Memory, frames: seq<Frame>, states: seq<ThreadState>,
      now: ThreadState)
    requires a.Valid() && Stacked(a, mem, frames, states) && REG_FP in a.nonvolatile
    requires Words(a, states[0]) && PartOf(now, states[0]) && SufficeAll(now, frames)
    ensures
      var found := UnwindAll(a, mem, frames, now);
      && |found| == |states|
      && forall i :: 0 <= i < |states| ==>
        && PartOf(found[i], states[i]) && REG_SP in found[i] && (REG_FP in now ==> REG_FP in found[i])
        && (i > 0 ==> REG_IP in found[i])
  {
    hide LaidOut, Unwind, PartOf, Known;
    AllAddresses(a, now, states[0]);
    if frames != [] {
      var f := frames[0];
      assert f in frames;
      UnwindRestores(a, mem, f.function_, f.entry, now, states[0], states[1]);
      var next := Unwind(a, mem, f.function_, now, f.entry).value;
      KnownRegisters(a, f.entry, now);
      CallerIsWords(a, mem, f, states[0], states[1]);
      StackUnwinds(a, mem, frames[1..], states[1..], next);
    }
  }

  lemma AllAddresses(a: Arch, now: ThreadState, full: ThreadState)
    requires a.Valid() && Words(a, full) && PartOf(now, full)
    ensures forall r :: r in now ==> now[r] <= ADDRESS_MAX
  {
  }

  lemma KnownRegisters(a: Arch, entry: Entry, now: ThreadState)
    requires REG_FP in a.nonvolatile
    ensures REG_SP in Known(a, entry, now) && REG_IP in Known(a, entry, now)
    ensures REG_FP in now ==> REG_FP in Known(a, entry, now)
  {
  }

  lemma CallerIsWords(a: Arch, mem: Memory, f: Frame, callee: ThreadState, caller: ThreadState)
    requires a.Valid() && f.function_ <= ADDRESS_MAX && LaidOut(a, mem, f.function_, f.entry, callee, caller)
    ensures Words(a, caller)
  {
  }
}

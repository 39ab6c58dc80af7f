/** When a compact unwind entry cannot be applied, and with which error. */
module CompactRefusals {
  import opened Bytes
  import opened Common
  import opened CompactFrame

  /** Why `len` bytes at an address cannot be read. */
  function ReadError(mem: Memory, address: int, len: nat): Option<Error> {
    if address < 0 || address > ADDRESS_MAX then Some(ENOMEM)
    else if !Mapped(mem, address, len) then Some(ENOTFOUND)
    else None
  }

  /** The first listed register from number `i` on that cannot be read; they are saved side by side from `base` on. */
  function SlotError(a: Arch, mem: Memory, base: nat, registers: seq<Option<PlReg>>, i: nat): Option<Error>
    decreases |registers| - i
  {
    if i >= |registers| then None
    else
      var e := if registers[i].Some? then ReadError(mem, base + i * a.gregSize, a.gregSize) else None;
      if e.Some? then e else SlotError(a, mem, base, registers, i + 1)
  }

  function Joined(b0: nat, b1: nat, b2: nat, b3: nat): nat {
    b0 + 0x100 * b1 + 0x1_0000 * b2 + 0x100_0000 * b3
  }

  function OperandOf(mem: Memory, address: nat): nat
    requires Mapped(mem, address, 4)
  {
    Joined(mem[address], mem[address + 1], mem[address + 2], mem[address + 3])
  }

  /** The error of a frameless entry whose frame has `size` bytes. */
  function FramelessError(a: Arch, mem: Memory, sp: nat, size: int, entry: Entry): Option<Error> {
    var returnAt := (sp + size - a.gregSize) % TWO_TO_64;
    var e := ReadError(mem, returnAt, a.gregSize);
    if e.Some? then e
    else SlotError(a, mem, (returnAt - a.gregSize * |entry.registers|) % TWO_TO_64, entry.registers, 0)
  }

  /** The error that applying an entry ends with, if it does. */
  function Refusal(a: Arch, mem: Memory, function_: nat, now: ThreadState, entry: Entry): Option<Error> {
    match entry.kind
    case FramePointer =>
      if REG_FP !in now then Some(ENOTFOUND)
      else
        var fp := now[REG_FP];
        if fp + 2 * a.gregSize > ADDRESS_MAX then Some(EINVAL)
        else if ReadError(mem, fp, 2 * a.gregSize).Some? then ReadError(mem, fp, 2 * a.gregSize)
        else SlotError(a, mem, (fp + entry.stackOffset) % TWO_TO_64, entry.registers, 0)
    case FramelessImmediate =>
      if REG_SP !in now then Some(ENOTFOUND) else FramelessError(a, mem, now[REG_SP], entry.stackOffset, entry)
    case FramelessIndirect =>
      var operand := function_ + entry.stackOffset;
      if REG_SP !in now then Some(ENOTFOUND)
      else if ReadError(mem, operand, 4).Some? then ReadError(mem, operand, 4)
      else FramelessError(a, mem, now[REG_SP], (OperandOf(mem, operand) + entry.stackAdjust) % 0x1_0000_0000, entry)
    case _ => Some(ENOTSUP)
  }

  lemma ReadRefused(mem: Memory, address: nat, offset: int, len: nat)
    requires address <= ADDRESS_MAX
    ensures
      var r := ReadBytes(mem, address, offset, len);
      ReadError(mem, address + offset, len) == if r.Err? then Some(r.error) else None
  {
  }

  lemma WordRefused(a: Arch, mem: Memory, address: nat, offset: int)
    requires address <= ADDRESS_MAX
    ensures
      var r := ReadWord(a, mem, address, offset);
      ReadError(mem, address + offset, a.gregSize) == if r.Err? then Some(r.error) else None
  {
    hide LittleEndian, ReadError, ReadBytes;
    ReadRefused(mem, address, offset, a.gregSize);
  }

  lemma {:induction false} SlotsRefused(a: Arch, mem: Memory, p: Popped, registers: seq<Option<PlReg>>, i: nat)
    requires a.Valid() && p.savedAt <= ADDRESS_MAX && i <= |registers| && Restore(a, mem, p, registers, i).Ok?
    ensures
      var r := Restore(a, mem, p, registers, |registers|);
      SlotError(a, mem, p.savedAt, registers, i) == if r.Err? then Some(r.error) else None
    decreases |registers| - i
  {
    hide ReadWord, ReadError;
    if i < |registers| {
      WordRefused(a, mem, p.savedAt, i * a.gregSize);
      if Restore(a, mem, p, registers, i + 1).Ok? {
        SlotsRefused(a, mem, p, registers, i + 1);
      } else {
        RestoreFails(a, mem, p, registers, i + 1, |registers|);
      }
    }
  }

  lemma BytesRead(mem: Memory, address: nat, offset: int)
    requires address <= ADDRESS_MAX && ReadBytes(mem, address, offset, 4).Ok?
    ensures 0 <= address + offset <= ADDRESS_MAX && Mapped(mem, address + offset, 4)
    ensures
      var bytes, target := ReadBytes(mem, address, offset, 4).value, address + offset;
      && |bytes| == 4 && bytes[0] == mem[target] && bytes[1] == mem[target + 1] && bytes[2] == mem[target + 2]
      && bytes[3] == mem[target + 3]
  {
  }

  lemma OperandRead(mem: Memory, function_: nat, entry: Entry)
    requires function_ <= ADDRESS_MAX && entry.kind.FramelessIndirect?
    requires ReadBytes(mem, function_, entry.stackOffset, 4).Ok?
    ensures 0 <= function_ + entry.stackOffset <= ADDRESS_MAX && Mapped(mem, function_ + entry.stackOffset, 4)
    ensures StackSize(mem, function_, entry) ==
            Ok((OperandOf(mem, function_ + entry.stackOffset) + entry.stackAdjust) % 0x1_0000_0000)
  {
    hide LittleEndian, ReadBytes, Joined, Mapped;
    BytesRead(mem, function_, entry.stackOffset);
    FourBytes(ReadBytes(mem, function_, entry.stackOffset, 4).value);
  }

  lemma FourBytes(bytes: seq<uint8>)
    requires |bytes| == 4
    ensures LittleEndian(bytes) == Joined(bytes[0], bytes[1], bytes[2], bytes[3])
  {
    assert bytes[1..][1..] == bytes[2..] && bytes[2..][1..] == bytes[3..] && bytes[3..][1..] == [];
    assert LittleEndian(bytes[3..]) == bytes[3];
    assert LittleEndian(bytes[2..]) == Joined(bytes[2], bytes[3], 0, 0);
    assert LittleEndian(bytes[1..]) == Joined(bytes[1], bytes[2], bytes[3], 0);
  }

  lemma FramelessRefused(a: Arch, mem: Memory, function_: nat, now: ThreadState, entry: Entry, size: int)
    requires a.Valid() && function_ <= ADDRESS_MAX && REG_SP in now && forall r :: r in now ==> now[r] <= ADDRESS_MAX
    requires StackSize(mem, function_, entry).Ok?
    requires StackSize(mem, function_, entry).value == size % TWO_TO_64
    ensures
      var p := PopFrameless(a, mem, function_, now, entry);
      var r := if p.Err? then Err(p.error) else Restore(a, mem, p.value, entry.registers, |entry.registers|);
      FramelessError(a, mem, now[REG_SP], size, entry) == if r.Err? then Some(r.error) else None
  {
    hide ReadWord, ReadError, StackSize, SlotError, Restore, SetReg, ClearVolatile;
    SameAddress(now[REG_SP], size, a.gregSize);
    var returnAt := (now[REG_SP] + size - a.gregSize) % TWO_TO_64;
    WordRefused(a, mem, returnAt, 0);
    var p := PopFrameless(a, mem, function_, now, entry);
    if p.Ok? {
      NoneRestored(a, mem, p.value, entry.registers);
      SlotsRefused(a, mem, p.value, entry.registers, 0);
    }
  }

  lemma WidthsAre(a: Arch)
    ensures a.Valid() <==> a.gregSize in {4, 8}
    ensures a.Valid() ==> a.Modulus() in {0x1_0000_0000, 0x1_0000_0000_0000_0000} && a.Modulus() == Power(a.gregSize)
  {
    if a.Valid() {
      PowerIsLimit(a.gregSize);
    }
  }

  lemma NoneRestored(a: Arch, mem: Memory, p: Popped, registers: seq<Option<PlReg>>)
    requires a.Valid() && p.savedAt <= ADDRESS_MAX
    ensures Restore(a, mem, p, registers, 0).Ok?
  {
  }

  lemma SameAddress(sp: nat, size: int, g: nat)
    ensures (sp + size % TWO_TO_64 - g) % TWO_TO_64 == (sp + size - g) % TWO_TO_64
  {
  }

  /** Applying an entry fails exactly so. */
  lemma UnwindRefused(a: Arch, mem: Memory, function_: nat, now: ThreadState, entry: Entry)
    requires a.Valid() && function_ <= ADDRESS_MAX && forall r :: r in now ==> now[r] <= ADDRESS_MAX
    ensures
      var r := Unwind(a, mem, function_, now, entry);
      Refusal(a, mem, function_, now, entry) == if r.Err? then Some(r.error) else None
  {
    hide ReadError, SlotError, Restore, FramelessError, PopFrameless, LittleEndian, ReadBytes, SetReg, ClearVolatile;
    match entry.kind
    case FramePointer =>
      if REG_FP in now {
        ReadRefused(mem, now[REG_FP], 0, 2 * a.gregSize);
        var p := PopFrame(a, mem, now, entry);
        if p.Ok? {
          NoneRestored(a, mem, p.value, entry.registers);
          SlotsRefused(a, mem, p.value, entry.registers, 0);
        }
      }
    case FramelessImmediate =>
      if REG_SP in now {
        FramelessRefused(a, mem, function_, now, entry, entry.stackOffset);
      } else {
        NoStackPointer(a, mem, function_, now, entry);
      }
    case FramelessIndirect =>
      IndirectRefused(a, mem, function_, now, entry);
    case _ =>
  }

  lemma NoStackPointer(a: Arch, mem: Memory, function_: nat, now: ThreadState, entry: Entry)
    requires a.Valid() && function_ <= ADDRESS_MAX && forall r :: r in now ==> now[r] <= ADDRESS_MAX
    ensures REG_SP !in now ==> PopFrameless(a, mem, function_, now, entry) == Err(ENOTFOUND)
    ensures REG_SP in now && StackSize(mem, function_, entry).Err? ==>
      PopFrameless(a, mem, function_, now, entry) == Err(StackSize(mem, function_, entry).error)
  {
  }

  lemma IndirectRefused(a: Arch, mem: Memory, function_: nat, now: ThreadState, entry: Entry)
    requires a.Valid() && function_ <= ADDRESS_MAX && forall r :: r in now ==> now[r] <= ADDRESS_MAX
    requires entry.kind.FramelessIndirect?
    ensures
      var r := Unwind(a, mem, function_, now, entry);
      Refusal(a, mem, function_, now, entry) == if r.Err? then Some(r.error) else None
  {
    hide ReadError, SlotError, Restore, FramelessError, PopFrameless, LittleEndian, ReadBytes, OperandOf, Joined, StackSize,
      Mapped, ClearVolatile, SetReg, ReadWord;
    NoStackPointer(a, mem, function_, now, entry);
    ReadRefused(mem, function_, entry.stackOffset, 4);
    if REG_SP in now && ReadBytes(mem, function_, entry.stackOffset, 4).Ok? {
      OperandRead(mem, function_, entry);
      var size := (OperandOf(mem, function_ + entry.stackOffset) + entry.stackAdjust) % 0x1_0000_0000;
      SmallSize(OperandOf(mem, function_ + entry.stackOffset) + entry.stackAdjust);
      FramelessRefused(a, mem, function_, now, entry, size);
    } else {
      OperandMissing(mem, function_, entry);
    }
  }

  lemma SmallSize(x: nat)
    ensures x % 0x1_0000_0000 % TWO_TO_64 == x % 0x1_0000_0000
  {
  }

  lemma OperandMissing(mem: Memory, function_: nat, entry: Entry)
    requires function_ <= ADDRESS_MAX && entry.kind.FramelessIndirect?
    ensures
      var r := ReadBytes(mem, function_, entry.stackOffset, 4);
      r.Err? ==> StackSize(mem, function_, entry) == Err(r.error)
  {
    hide LittleEndian, ReadBytes;
  }
}

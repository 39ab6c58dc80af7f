/** Prologues, and that applying a compact unwind entry undoes them. */
module CompactPrologue {
  import opened Bytes
  import opened Common
  import opened CompactFrame

  function WriteWord(a: Arch, mem: Memory, address: nat, v: nat): Memory {
    mem + map x: nat | address <= x < address + a.gregSize :: ByteAt(a, address, v, x)
  }

  function ByteAt(a: Arch, address: nat, v: nat, x: nat): uint8 {
    if address <= x < address + a.gregSize then Field(v, a.gregSize, false)[x - address] else 0
  }

  lemma WordWritten(a: Arch, mem: Memory, address: nat, v: nat)
    requires a.Valid() && v < a.Modulus() && address <= ADDRESS_MAX
    ensures Holds(a, WriteWord(a, mem, address, v), address, v)
  {
    hide LittleEndian, Field;
    var mem' := WriteWord(a, mem, address, v);
    var bytes := ReadBytes(mem', address, 0, a.gregSize);
    assert bytes.value == Field(v, a.gregSize, false);
    PowerIsLimit(a.gregSize);
    FieldRead(v, a.gregSize, false);
  }

  lemma OtherWordKept(a: Arch, mem: Memory, address: nat, v: nat, other: int, w: nat)
    requires a.Valid() && Holds(a, mem, other, w) && (other + a.gregSize <= address || address + a.gregSize <= other)
    ensures Holds(a, WriteWord(a, mem, address, v), other, w)
  {
    hide LittleEndian, Field;
    var mem' := WriteWord(a, mem, address, v);
    assert forall x :: other <= x < other + a.gregSize ==> x in mem' && mem'[x] == mem[x];
    assert ReadBytes(mem', other, 0, a.gregSize).value == ReadBytes(mem, other, 0, a.gregSize).value;
  }

  /** Saves the first `n` listed registers side by side. */
  function SaveRegisters(a: Arch, mem: Memory, address: nat, entry: Entry, caller: ThreadState, n: nat): Memory
    requires n <= |entry.registers|
    requires forall i :: 0 <= i < |entry.registers| && entry.registers[i].Some? ==> entry.registers[i].value in caller
  {
    if n == 0 then mem
    else
      var saved := SaveRegisters(a, mem, address, entry, caller, n - 1);
      match entry.registers[n - 1]
      case None => saved
      case Some(r) => WriteWord(a, saved, address + Slot(a, n - 1), caller[r])
  }

  function Slot(a: Arch, i: nat): (r: nat)
  {
    i * a.gregSize
  }

  lemma SlotsApart(a: Arch, i: nat, j: nat)
    requires a.Valid() && i < j
    ensures Slot(a, i) + a.gregSize <= Slot(a, j)
  {
    if a.gregSize == 4 {
      assert Slot(a, i) == i * 4 && Slot(a, j) == j * 4;
    } else {
      assert Slot(a, i) == i * 8 && Slot(a, j) == j * 8;
    }
  }

  ghost predicate CanSave(a: Arch, address: nat, entry: Entry, caller: ThreadState) {
    && address + Slot(a, |entry.registers|) <= ADDRESS_MAX && Words(a, caller)
    && forall i :: 0 <= i < |entry.registers| && entry.registers[i].Some? ==> entry.registers[i].value in caller
  }

  lemma {:induction false} OthersKept(a: Arch, mem: Memory, address: nat, entry: Entry, caller: ThreadState, n: nat,
      other: nat, w: nat)
    requires a.Valid() && n <= |entry.registers| && CanSave(a, address, entry, caller)
    requires Holds(a, mem, other, w) && (other + a.gregSize <= address || address + Slot(a, n) <= other)
    ensures Holds(a, SaveRegisters(a, mem, address, entry, caller, n), other, w)
  {
    hide Holds, Slot, WriteWord, Words;
    if n > 0 {
      SlotsApart(a, n - 1, n);
      OthersKept(a, mem, address, entry, caller, n - 1, other, w);
      if entry.registers[n - 1].Some? {
        OtherWordKept(a, SaveRegisters(a, mem, address, entry, caller, n - 1), address + Slot(a, n - 1),
                      caller[entry.registers[n - 1].value], other, w);
      }
    }
  }

  lemma CallerWords(a: Arch, address: nat, entry: Entry, caller: ThreadState)
    requires CanSave(a, address, entry, caller)
    ensures forall i {:trigger entry.registers[i]} :: 0 <= i < |entry.registers| && entry.registers[i].Some? ==>
      caller[entry.registers[i].value] < a.Modulus()
  {
  }

  lemma {:induction false} RegisterSaved(a: Arch, mem: Memory, address: nat, entry: Entry, caller: ThreadState,
      n: nat, i: nat)
    requires a.Valid() && i < n <= |entry.registers| && CanSave(a, address, entry, caller) && entry.registers[i].Some?
    ensures Holds(a, SaveRegisters(a, mem, address, entry, caller, n), address + Slot(a, i), caller[entry.registers[i].value])
  {
    hide Holds, Slot, WriteWord, Words;
    CallerWords(a, address, entry, caller);
    var before := SaveRegisters(a, mem, address, entry, caller, n - 1);
    SlotInRange(a, i, |entry.registers|);
    SlotInRange(a, n - 1, |entry.registers|);
    if i == n - 1 {
      WordWritten(a, before, address + Slot(a, i), caller[entry.registers[i].value]);
    } else {
      RegisterSaved(a, mem, address, entry, caller, n - 1, i);
      SlotsApart(a, i, n - 1);
      if entry.registers[n - 1].Some? {
        OtherWordKept(a, before, address + Slot(a, n - 1), caller[entry.registers[n - 1].value],
                      address + Slot(a, i), caller[entry.registers[i].value]);
      }
    }
  }

  lemma SlotInRange(a: Arch, i: nat, n: nat)
    requires a.Valid() && i <= n
    ensures Slot(a, i) <= Slot(a, n)
  {
    if i < n {
      SlotsApart(a, i, n);
    }
  }

  lemma AllSaved(a: Arch, mem: Memory, address: nat, entry: Entry, caller: ThreadState)
    requires a.Valid() && CanSave(a, address, entry, caller)
    ensures SavedFrom(a, SaveRegisters(a, mem, address, entry, caller, |entry.registers|), address, entry, caller)
  {
    hide Holds;
    var mem' := SaveRegisters(a, mem, address, entry, caller, |entry.registers|);
    forall i {:trigger entry.registers[i]} | 0 <= i < |entry.registers| && entry.registers[i].Some?
      ensures entry.registers[i].value in caller && Holds(a, mem', address + i * a.gregSize, caller[entry.registers[i].value])
    {
      RegisterSaved(a, mem, address, entry, caller, |entry.registers|, i);
    }
  }

  /** call; push fp; mov sp, fp; and then the listed registers below the frame pointer. */
  function FramedPrologue(a: Arch, mem: Memory, entry: Entry, caller: ThreadState): Memory
    requires REG_SP in caller && REG_FP in caller && REG_IP in caller && caller[REG_SP] >= 2 * a.gregSize
    requires caller[REG_SP] - 2 * a.gregSize + entry.stackOffset >= 0
    requires forall i :: 0 <= i < |entry.registers| && entry.registers[i].Some? ==> entry.registers[i].value in caller
  {
    var fp := caller[REG_SP] - 2 * a.gregSize;
    var pushed := WriteWord(a, WriteWord(a, mem, fp + a.gregSize, caller[REG_IP]), fp, caller[REG_FP]);
    SaveRegisters(a, pushed, fp + entry.stackOffset, entry, caller, |entry.registers|)
  }

  /**
   * The frame pointer form undoes any framed prologue, whatever the function does to its volatile registers after it.
   */
  lemma FramedRoundTrip(a: Arch, mem: Memory, function_: nat, entry: Entry, caller: ThreadState, callee: ThreadState)
    requires a.Valid() && entry.Valid() && entry.kind.FramePointer? && function_ <= ADDRESS_MAX
    requires Words(a, caller) && Words(a, callee) && REG_SP in caller && REG_FP in caller && REG_IP in caller
    requires CanSave(a, 0, entry, caller) && caller[REG_SP] >= 2 * a.gregSize
    requires 0 <= caller[REG_SP] - 2 * a.gregSize + entry.stackOffset
      && entry.stackOffset + Slot(a, |entry.registers|) <= 0
    requires REG_SP in callee && REG_FP in callee && callee[REG_FP] == caller[REG_SP] - 2 * a.gregSize
    requires forall r :: r in callee && r in a.nonvolatile && !Listed(entry, r) && r != REG_SP && r != REG_FP ==>
      r in caller && callee[r] == caller[r]
    ensures
      var r := Unwind(a, FramedPrologue(a, mem, entry, caller), function_, callee, entry);
      r.Ok? && PartOf(r.value, caller) && r.value.Keys == Known(a, entry, callee) + ListedIn(entry.registers)
  {
    hide Holds, SavedFrom, Unwind, Known, PartOf, WriteWord, SaveRegisters, Slot, ListedIn;
    var g, fp := a.gregSize, caller[REG_SP] - 2 * a.gregSize;
    var base := fp + entry.stackOffset;
    var called := WriteWord(a, mem, fp + g, caller[REG_IP]);
    var pushed := WriteWord(a, called, fp, caller[REG_FP]);
    WordWritten(a, mem, fp + g, caller[REG_IP]);
    OtherWordKept(a, called, fp, caller[REG_FP], fp + g, caller[REG_IP]);
    WordWritten(a, called, fp, caller[REG_FP]);
    OthersKept(a, pushed, base, entry, caller, |entry.registers|, fp + g, caller[REG_IP]);
    OthersKept(a, pushed, base, entry, caller, |entry.registers|, fp, caller[REG_FP]);
    AllSaved(a, pushed, base, entry, caller);
    PartOfItself(callee);
    UnwindRestores(a, FramedPrologue(a, mem, entry, caller), function_, entry, callee, callee, caller);
  }

  lemma PartOfItself(s: ThreadState)
    ensures PartOf(s, s)
  {
  }

  /** call; push the listed registers below the return address; and then room for the rest of the frame. */
  function FramelessPrologue(a: Arch, mem: Memory, entry: Entry, caller: ThreadState): Memory
    requires REG_SP in caller && REG_IP in caller && caller[REG_SP] >= a.gregSize + Slot(a, |entry.registers|)
    requires forall i :: 0 <= i < |entry.registers| && entry.registers[i].Some? ==> entry.registers[i].value in caller
  {
    var returnAt := caller[REG_SP] - a.gregSize;
    SaveRegisters(a, WriteWord(a, mem, returnAt, caller[REG_IP]), returnAt - Slot(a, |entry.registers|), entry, caller,
                  |entry.registers|)
  }

  /** The immediate frameless form undoes a prologue that leaves the stack pointer the given size lower. */
  lemma FramelessRoundTrip(a: Arch, mem: Memory, function_: nat, entry: Entry, caller: ThreadState, callee: ThreadState)
    requires a.Valid() && entry.Valid() && entry.kind.FramelessImmediate? && function_ <= ADDRESS_MAX
    requires Words(a, caller) && Words(a, callee) && REG_SP in caller && REG_IP in caller
    requires CanSave(a, 0, entry, caller) && caller[REG_SP] >= a.gregSize + Slot(a, |entry.registers|)
    requires REG_SP in callee && entry.stackOffset >= 0
    requires callee[REG_SP] + entry.stackOffset == caller[REG_SP]
    requires forall r :: r in callee && r in a.nonvolatile && !Listed(entry, r) && r != REG_SP ==>
      r in caller && callee[r] == caller[r]
    ensures
      var r := Unwind(a, FramelessPrologue(a, mem, entry, caller), function_, callee, entry);
      r.Ok? && PartOf(r.value, caller) && r.value.Keys == Known(a, entry, callee) + ListedIn(entry.registers)
  {
    hide Holds, SavedFrom, Unwind, Known, PartOf, WriteWord, SaveRegisters, ListedIn;
    var returnAt := caller[REG_SP] - a.gregSize;
    var base := returnAt - Slot(a, |entry.registers|);
    var called := WriteWord(a, mem, returnAt, caller[REG_IP]);
    WordWritten(a, mem, returnAt, caller[REG_IP]);
    OthersKept(a, called, base, entry, caller, |entry.registers|, returnAt, caller[REG_IP]);
    AllSaved(a, called, base, entry, caller);
    PartOfItself(callee);
    UnwindRestores(a, FramelessPrologue(a, mem, entry, caller), function_, entry, callee, callee, caller);
  }

  /** Bytes outside of the stack's words stay as they are. */
  lemma {:induction false} ByteKept(a: Arch, mem: Memory, address: nat, entry: Entry, caller: ThreadState, n: nat, x: nat)
    requires a.Valid() && n <= |entry.registers| && CanSave(a, address, entry, caller)
    requires x in mem && (x < address || address + Slot(a, n) <= x)
    ensures
      var mem' := SaveRegisters(a, mem, address, entry, caller, n);
      x in mem' && mem'[x] == mem[x]
  {
    hide Slot, Words;
    if n > 0 {
      SlotsApart(a, n - 1, n);
      ByteKept(a, mem, address, entry, caller, n - 1, x);
    }
  }

  /** The code that subtracts from the stack pointer lies outside of the words that the prologue writes. */
  lemma OperandKept(a: Arch, mem: Memory, entry: Entry, caller: ThreadState, address: nat, v: nat)
    requires a.Valid() && REG_SP in caller && REG_IP in caller && CanSave(a, 0, entry, caller)
    requires caller[REG_SP] >= a.gregSize + Slot(a, |entry.registers|) && caller[REG_SP] <= ADDRESS_MAX
    requires OperandIs(mem, address, v)
    requires address + 4 <= caller[REG_SP] - a.gregSize - Slot(a, |entry.registers|) || caller[REG_SP] <= address
    ensures OperandIs(FramelessPrologue(a, mem, entry, caller), address, v)
  {
    hide Slot, Field, WriteWord, SaveRegisters;
    var returnAt := caller[REG_SP] - a.gregSize;
    var called := WriteWord(a, mem, returnAt, caller[REG_IP]);
    var mem' := FramelessPrologue(a, mem, entry, caller);
    forall x | address <= x < address + 4 ensures x in mem' && mem'[x] == mem[x] {
      WordLeaves(a, mem, returnAt, caller[REG_IP], x);
      ByteKept(a, called, returnAt - Slot(a, |entry.registers|), entry, caller, |entry.registers|, x);
    }
  }

  lemma WordLeaves(a: Arch, mem: Memory, address: nat, v: nat, x: nat)
    requires x in mem && (x < address || address + a.gregSize <= x)
    ensures x in WriteWord(a, mem, address, v) && WriteWord(a, mem, address, v)[x] == mem[x]
  {
  }

  /** The indirect frameless form undoes the same prologue, with the size in an instruction of the function. */
  lemma IndirectRoundTrip(a: Arch, mem: Memory, function_: nat, entry: Entry, caller: ThreadState, callee: ThreadState,
                          size: nat)
    requires a.Valid() && entry.Valid() && entry.kind.FramelessIndirect? && function_ <= ADDRESS_MAX
    requires Words(a, caller) && Words(a, callee) && REG_SP in caller && REG_IP in caller
    requires CanSave(a, 0, entry, caller) && caller[REG_SP] >= a.gregSize + Slot(a, |entry.registers|)
    requires REG_SP in callee && callee[REG_SP] + size == caller[REG_SP]
    requires SizeIs(mem, function_, entry, size)
    requires
      var operand := function_ + entry.stackOffset;
      operand + 4 <= caller[REG_SP] - a.gregSize - Slot(a, |entry.registers|) || caller[REG_SP] <= operand
    requires forall r :: r in callee && r in a.nonvolatile && !Listed(entry, r) && r != REG_SP ==>
      r in caller && callee[r] == caller[r]
    ensures
      var r := Unwind(a, FramelessPrologue(a, mem, entry, caller), function_, callee, entry);
      r.Ok? && PartOf(r.value, caller) && r.value.Keys == Known(a, entry, callee) + ListedIn(entry.registers)
  {
    hide Holds, SavedFrom, Unwind, Known, PartOf, WriteWord, SaveRegisters, ListedIn, OperandIs;
    var returnAt := caller[REG_SP] - a.gregSize;
    var base := returnAt - Slot(a, |entry.registers|);
    var called := WriteWord(a, mem, returnAt, caller[REG_IP]);
    WordWritten(a, mem, returnAt, caller[REG_IP]);
    OthersKept(a, called, base, entry, caller, |entry.registers|, returnAt, caller[REG_IP]);
    AllSaved(a, called, base, entry, caller);
    PartOfItself(callee);
    OperandBounds(mem, function_ + entry.stackOffset, size - entry.stackAdjust);
    OperandKept(a, mem, entry, caller, function_ + entry.stackOffset, size - entry.stackAdjust);
    UnwindRestores(a, FramelessPrologue(a, mem, entry, caller), function_, entry, callee, callee, caller);
  }

  lemma OperandBounds(mem: Memory, address: int, v: nat)
    requires OperandIs(mem, address, v)
    ensures 0 <= address <= ADDRESS_MAX
  {
  }
}

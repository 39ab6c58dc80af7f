/**
 * The two unwinders side by side: DWARF rules and a compact entry that describe the same frame give the same caller.
 */
module UnwindersAgree {
  import opened Common
  import opened CfaTable
  import opened CfaEnumeration
  import opened CfaApply
  import F = CompactFrame

  /** One target, seen by both unwinders. */
  ghost predicate SameTarget(m: Target, a: F.Arch, mem: F.Memory) {
    && m.Valid() && a.Valid() && m.wordModulus == a.Modulus()
    && (forall address: nat {:trigger m.readWord(address)} :: address <= ADDRESS_MAX ==>
          m.readWord(address) == F.ReadWord(a, mem, address, 0))
    && (forall r: PlReg :: r in m.volatileRegs <==> r !in a.nonvolatile)
    && (m.returnAddressRegister <= UINT32_MAX ==> m.RegisterFor(m.returnAddressRegister) == Some(REG_IP))
  }

  /** The rule says where the caller's value of its register is saved. */
  predicate Locates(m: Target, a: F.Arch, mem: F.Memory, cfa: nat, r: RegNum, rule: RegRule, caller: ThreadState)
    requires m.Valid()
  {
    && m.RegisterFor(r).Some? && rule.kind.Offset?
    && m.RegisterFor(r).value in caller
    && F.Holds(a, mem, cfa + m.SignedWord(rule.value), caller[m.RegisterFor(r).value])
  }

  function Targets(m: Target, regs: seq<RegNum>): set<PlReg> {
    set i | 0 <= i < |regs| && m.RegisterFor(regs[i]).Some? :: m.RegisterFor(regs[i]).value
  }

  lemma TargetsSnoc(m: Target, regs: seq<RegNum>)
    requires regs != []
    ensures
      var n := |regs| - 1;
      Targets(m, regs) == Targets(m, regs[..n]) + if m.RegisterFor(regs[n]).Some? then {m.RegisterFor(regs[n]).value} else {}
  {
  }

  lemma RuleRestores(m: Target, a: F.Arch, mem: F.Memory, now: ThreadState, cfa: nat, r: RegNum, rule: RegRule,
                     caller: ThreadState, state: ThreadState)
    requires SameTarget(m, a, mem) && Locates(m, a, mem, cfa, r, rule, caller)
    ensures
      var p := m.RegisterFor(r).value;
      ApplyRule(m, now, cfa, r, rule, state) == Ok(state[p := caller[p]])
  {
    hide F.ReadWord, Target.SignedWord;
    var address := cfa + m.SignedWord(rule.value);
    assert m.readWord(address) == F.ReadWord(a, mem, address, 0);
  }

  /** Rules that locate the caller's registers restore them, in whatever order they are applied. */
  lemma {:induction false} RulesRestore(m: Target, a: F.Arch, mem: F.Memory, now: ThreadState, cfa: nat, rules: Rules,
                                        regs: seq<RegNum>, caller: ThreadState)
    requires SameTarget(m, a, mem)
    requires forall r :: r in regs ==> r in rules && Locates(m, a, mem, cfa, r, rules[r], caller)
    ensures
      var start := Prepared(m, now, cfa);
      var s := ApplyInOrder(m, now, cfa, rules, regs, start);
      && s.Ok? && s.value.Keys == start.Keys + Targets(m, regs)
      && forall p :: p in s.value ==>
           if p in Targets(m, regs) then p in caller && s.value[p] == caller[p]
           else p in start && s.value[p] == start[p]
  {
    hide SameTarget, Locates, ApplyRule, Prepared, Target.RegisterFor;
    SameTargetValid(m, a, mem);
    if regs != [] {
      var n := |regs| - 1;
      RulesRestore(m, a, mem, now, cfa, rules, regs[..n], caller);
      TargetsSnoc(m, regs);
      assert regs[n] in regs;
      var state := ApplyInOrder(m, now, cfa, rules, regs[..n], Prepared(m, now, cfa)).value;
      RuleRestores(m, a, mem, now, cfa, regs[n], rules[regs[n]], caller, state);
      HasRegister(m, a, mem, cfa, regs[n], rules[regs[n]], caller);
    }
  }

  lemma HasRegister(m: Target, a: F.Arch, mem: F.Memory, cfa: nat, r: RegNum, rule: RegRule, caller: ThreadState)
    requires m.Valid() && Locates(m, a, mem, cfa, r, rule, caller)
    ensures m.RegisterFor(r).Some? && m.RegisterFor(r).value in caller
  {
  }

  lemma PreparedRight(m: Target, a: F.Arch, mem: F.Memory, function_: nat, entry: F.Entry, now: ThreadState,
                      callee: ThreadState, caller: ThreadState)
    requires SameTarget(m, a, mem) && function_ <= ADDRESS_MAX && F.LaidOut(a, mem, function_, entry, callee, caller)
    requires F.PartOf(now, callee)
    ensures REG_SP in caller && REG_IP in caller
    ensures
      var start := Prepared(m, now, caller[REG_SP]);
      && start.Keys == now.Keys * a.nonvolatile + {REG_SP}
      && forall p :: p in start && !F.Listed(entry, p) && !(p == REG_FP && entry.kind.FramePointer?) ==>
           p in caller && start[p] == caller[p]
  {
    hide F.SavedFrom, F.Holds, F.Words, F.SizeIs, Target.RegisterFor;
  }

  /** The CFA rule that a compiler gives for the frame: an offset from the frame pointer or from the stack pointer. */
  predicate DescribesCfa(m: Target, a: F.Arch, mem: F.Memory, function_: nat, entry: F.Entry, cfa: CfaRule)
    requires function_ <= ADDRESS_MAX
  {
    && cfa.RegisterOffset?
    && if entry.kind.FramePointer? then m.registerOf(cfa.regnum) == Some(REG_FP) && cfa.offset == 2 * a.gregSize
       else m.registerOf(cfa.regnum) == Some(REG_SP) && F.SizeIs(mem, function_, entry, cfa.offset)
  }

  /** In a frame that is laid out as described, that rule gives the caller's stack pointer. */
  lemma CfaIsCallerSp(m: Target, a: F.Arch, mem: F.Memory, function_: nat, entry: F.Entry, cfa: CfaRule,
                      now: ThreadState, callee: ThreadState, caller: ThreadState)
    requires SameTarget(m, a, mem) && function_ <= ADDRESS_MAX && F.LaidOut(a, mem, function_, entry, callee, caller)
    requires F.PartOf(now, callee) && F.Suffices(now, entry) && DescribesCfa(m, a, mem, function_, entry, cfa)
    ensures REG_SP in caller && CfaValue(m, now, cfa) == Ok(caller[REG_SP])
  {
    hide F.SavedFrom, F.Holds, F.OperandIs, Target.RegisterFor;
    if !entry.kind.FramePointer? {
      F.SizeRead(mem, function_, entry, cfa.offset);
      F.SizeRead(mem, function_, entry, caller[REG_SP] - callee[REG_SP]);
    }
    if a.gregSize == 8 {
      assert caller[REG_SP] % TWO_TO_64 == caller[REG_SP];
    } else {
      assert caller[REG_SP] % 0x1_0000_0000 == caller[REG_SP];
    }
  }

  /**
   * If the CFA rule gives the caller's stack pointer, and the register rules locate the return address, the listed
   * registers and, in a function with a frame pointer, that, then `apply_state` gives exactly what applying the compact
   * entry gives.
   */
  lemma SameCaller(m: Target, a: F.Arch, mem: F.Memory, function_: nat, entry: F.Entry, cfa: CfaRule, rules: Rules,
                   regs: seq<RegNum>, now: ThreadState, callee: ThreadState, caller: ThreadState)
    requires SameTarget(m, a, mem) && entry.Valid() && function_ <= ADDRESS_MAX
    requires F.LaidOut(a, mem, function_, entry, callee, caller)
    requires F.PartOf(now, callee) && F.Suffices(now, entry) && forall r :: r in now ==> now[r] <= ADDRESS_MAX
    requires Elements(regs) == rules.Keys && Distinct(regs)
    requires REG_SP in caller && CfaValue(m, now, cfa) == Ok(caller[REG_SP])
    requires forall r :: r in rules ==> Locates(m, a, mem, caller[REG_SP], r, rules[r], caller)
    requires Targets(m, regs) ==
      F.ListedIn(entry.registers) + {REG_IP} + if entry.kind.FramePointer? then {REG_FP} else {}
    ensures forall r :: r in regs ==> r in rules
    ensures Applied(m, now, cfa, rules, regs) == F.Unwind(a, mem, function_, now, entry)
  {
    hide SameTarget, Locates, Targets, Distinct, ApplyInOrder, Prepared, F.LaidOut, F.Unwind, F.ListedIn, CfaValue;
    EnumeratedAreRules(regs, rules);
    RulesRestore(m, a, mem, now, caller[REG_SP], rules, regs, caller);
    PreparedRight(m, a, mem, function_, entry, now, callee, caller);
    SameTargetValid(m, a, mem);
    F.UnwindRestores(a, mem, function_, entry, now, callee, caller);
    F.ListedIff(entry);
    var s := ApplyInOrder(m, now, caller[REG_SP], rules, regs, Prepared(m, now, caller[REG_SP])).value;
    var t := F.Unwind(a, mem, function_, now, entry).value;
    assert s.Keys == t.Keys;
    forall p | p in s ensures s[p] == t[p] {
      assert p in t.Keys;
    }
    assert s == t;
  }

  lemma SameTargetValid(m: Target, a: F.Arch, mem: F.Memory)
    requires SameTarget(m, a, mem)
    ensures m.Valid() && a.Valid()
  {
  }
}

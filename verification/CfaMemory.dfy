/**
 * From the bytes of one call-frame instruction to the caller's registers: what `eval_program` reads and `apply_state`
 * then does, in the operands of the instruction, the current registers and the memory.
 */
module CfaMemory {
  import opened Bytes
  import opened Common
  import opened CfaTable
  import opened CfaProgram
  import opened CfaRuleLaws
  import A = CfaAssembler
  import opened CfaApply

  /** The interpreter stands in front of the instruction and is going to execute it, for the target `m`. */
  ghost predicate StandsBefore(env: Env, m: Target, bytes: seq<uint8>, c: Config, a: A.Source) {
    && env.Valid() && m.Valid() && env.wordModulus == m.wordModulus && c.table.Valid()
    && A.Encodable(a) && Stands(bytes, c.pos, A.Code(a, env.bigEndian))
    && (env.pc == 0 || c.location <= env.pc)
  }

  /** The row after the instruction has been executed, applied. */
  ghost predicate RowGives(m: Target, now: ThreadState, cfa: nat, o: Outcome, regs: seq<RegNum>, s: ThreadState) {
    o.Running? && o.c.table.Valid() && Gives(m, now, o.c.table.Top().cfa, cfa, o.c.table.Top().rules, regs, s)
  }

  /** A number of the signed range of a word. */
  predicate InRange(m: Target, n: int) {
    0 - m.wordModulus <= 2 * n < m.wordModulus
  }

  lemma Executed(env: Env, m: Target, initial: Rules, bytes: seq<uint8>, c: Config, a: A.Source)
    requires StandsBefore(env, m, bytes, c, a)
    ensures
      var next := c.(pos := c.pos + |A.Code(a, env.bigEndian)|);
      Step(env, initial, bytes, c) == Execute(env, initial, A.Meaning(env, a, c.pos), next)
  {
    hide Execute, A.Meaning, A.Encodable, Decode, Stands, A.Code;
    A.AssembledDecodes(env, bytes, a, c.pos);
  }

  lemma RuleSet(env: Env, m: Target, initial: Rules, bytes: seq<uint8>, c: Config, a: A.Source, r: RegNum, rule: RegRule)
    requires StandsBefore(env, m, bytes, c, a) && A.Meaning(env, a, c.pos) == SetRule(r, rule)
    ensures
      var o := Step(env, initial, bytes, c);
      && (o.Running? <==> c.table.CanSet(r))
      && (o.Running? ==> o.c.table.Valid() && r in o.c.table.Top().rules && o.c.table.Top().rules[r] == rule)
      && (!o.Running? ==> o == Failed(ENOMEM, c.table))
  {
    hide Stands, A.Code, A.Encodable, A.Meaning;
    Executed(env, m, initial, bytes, c, a);
  }

  /** Targets have words of 32 and of 64 bits. */
  lemma WidthsAre(env: Env, m: Target)
    ensures env.Valid() <==> env.wordModulus in {0x1_0000_0000, 0x1_0000_0000_0000_0000}
    ensures m.Valid() <==> m.wordModulus in {0x1_0000_0000, 0x1_0000_0000_0000_0000}
  {
  }

  lemma WordOfNumber(m: Target, n: int)
    requires m.Valid() && InRange(m, n)
    ensures IsWord(m, n % m.wordModulus, n)
  {
  }

  /** The three encodings of an offset rule with operand `n`. */
  predicate IsOffset(a: A.Source, r: RegNum, n: int) {
    a == A.OffsetSigned(r, n) || (n >= 0 && (a == A.OffsetOf(r, n) || a == A.OffsetExtended(r, n)))
  }

  predicate IsValOffset(a: A.Source, r: RegNum, n: int) {
    a == A.ValOffsetSigned(r, n) || (n >= 0 && a == A.ValOffsetOf(r, n))
  }

  /**
   * DW_CFA_offset, in all its encodings: the register gets the word at the CFA plus the operand times the data
   * alignment. It sets the rule unless all entries are taken.
   */
  lemma OffsetRestores(env: Env, m: Target, initial: Rules, bytes: seq<uint8>, c: Config, a: A.Source, r: RegNum, n: int,
                       now: ThreadState, cfa: nat, regs: seq<RegNum>, s: ThreadState, p: PlReg)
    requires StandsBefore(env, m, bytes, c, a) && IsOffset(a, r, n)
    ensures Step(env, initial, bytes, c).Running? <==> c.table.CanSet(r)
    ensures
      var address := cfa + n * env.dataAlignment;
      RowGives(m, now, cfa, Step(env, initial, bytes, c), regs, s) && Column(m, r, p)
      && InRange(m, n * env.dataAlignment) ==>
        0 <= address <= ADDRESS_MAX && p in s && m.readWord(address) == Ok(s[p])
  {
    hide Stands, A.Code, A.Encodable, Step, Gives, Column, IsWord;
    var o := n * env.dataAlignment;
    RuleSet(env, m, initial, bytes, c, a, r, RegRule(Offset, o % env.wordModulus));
    var t := Step(env, initial, bytes, c);
    if RowGives(m, now, cfa, t, regs, s) && Column(m, r, p) && InRange(m, o) {
      WordOfNumber(m, o);
      OffsetRule(m, now, t.c.table.Top().cfa, cfa, t.c.table.Top().rules, regs, s, r, p, o);
    }
  }

  /** DW_CFA_val_offset: the register gets that address itself. */
  lemma ValOffsetRestores(env: Env, m: Target, initial: Rules, bytes: seq<uint8>, c: Config, a: A.Source, r: RegNum,
                          n: int, now: ThreadState, cfa: nat, regs: seq<RegNum>, s: ThreadState, p: PlReg)
    requires StandsBefore(env, m, bytes, c, a) && IsValOffset(a, r, n)
    ensures Step(env, initial, bytes, c).Running? <==> c.table.CanSet(r)
    ensures
      RowGives(m, now, cfa, Step(env, initial, bytes, c), regs, s) && Column(m, r, p)
      && InRange(m, n * env.dataAlignment) ==>
        p in s && s[p] == (cfa + n * env.dataAlignment) % m.wordModulus
  {
    hide Stands, A.Code, A.Encodable, Step, Gives, Column, IsWord;
    var o := n * env.dataAlignment;
    RuleSet(env, m, initial, bytes, c, a, r, RegRule(ValOffset, o % env.wordModulus));
    var t := Step(env, initial, bytes, c);
    if RowGives(m, now, cfa, t, regs, s) && Column(m, r, p) && InRange(m, o) {
      WordOfNumber(m, o);
      ValOffsetRule(m, now, t.c.table.Top().cfa, cfa, t.c.table.Top().rules, regs, s, r, p, o);
    }
  }

  /** DW_CFA_register: the register gets what the other one holds now. */
  lemma RegisterRestores(env: Env, m: Target, initial: Rules, bytes: seq<uint8>, c: Config, r: RegNum, source: nat,
                         now: ThreadState, cfa: nat, regs: seq<RegNum>, s: ThreadState, p: PlReg)
    requires StandsBefore(env, m, bytes, c, A.RegisterOf(r, source)) && source < env.wordModulus
    ensures
      RowGives(m, now, cfa, Step(env, initial, bytes, c), regs, s) && Column(m, r, p) ==>
        var q := m.registerOf(source);
        q.Some? && q.value in now && p in s && s[p] == now[q.value]
  {
    hide Stands, A.Code, A.Encodable, Step, Gives, Column;
    assert source % env.wordModulus == source;
    RuleSet(env, m, initial, bytes, c, A.RegisterOf(r, source), r, RegRule(Register, source));
    var t := Step(env, initial, bytes, c);
    if RowGives(m, now, cfa, t, regs, s) && Column(m, r, p) {
      RegisterRule(m, now, t.c.table.Top().cfa, cfa, t.c.table.Top().rules, regs, s, r, p);
    }
  }

  /** DW_CFA_same_value. */
  lemma SameValueRestores(env: Env, m: Target, initial: Rules, bytes: seq<uint8>, c: Config, r: RegNum,
                          now: ThreadState, cfa: nat, regs: seq<RegNum>, s: ThreadState, p: PlReg)
    requires StandsBefore(env, m, bytes, c, A.SameValueOf(r))
    ensures
      RowGives(m, now, cfa, Step(env, initial, bytes, c), regs, s) && Column(m, r, p) ==>
        p in now && p in s && s[p] == now[p]
  {
    hide Stands, A.Code, A.Encodable, Step, Gives, Column;
    RuleSet(env, m, initial, bytes, c, A.SameValueOf(r), r, RegRule(SameValue, 0));
    var t := Step(env, initial, bytes, c);
    if RowGives(m, now, cfa, t, regs, s) && Column(m, r, p) {
      SameValueRule(m, now, t.c.table.Top().cfa, cfa, t.c.table.Top().rules, regs, s, r, p);
    }
  }

  /** DW_CFA_def_cfa, unsigned and factored: the CFA is the register plus the offset, and the caller's stack pointer. */
  lemma DefineCfaGives(env: Env, m: Target, initial: Rules, bytes: seq<uint8>, c: Config, a: A.Source, r: RegNum, n: int,
                       now: ThreadState, cfa: nat, regs: seq<RegNum>, s: ThreadState)
    requires StandsBefore(env, m, bytes, c, a)
    requires (n >= 0 && a == A.DefCfa(r, n)) || a == A.DefCfaSigned(r, n)
    ensures Step(env, initial, bytes, c).Running?
    ensures
      var t := Step(env, initial, bytes, c).c.table;
      var offset := if a.DefCfa? then n else n * env.dataAlignment;
      t.Valid() && t.Top().rules == c.table.Top().rules
      && (RowGives(m, now, cfa, Step(env, initial, bytes, c), regs, s) ==>
            var q := m.registerOf(r);
            && q.Some? && q.value in now && cfa == (now[q.value] + offset) % m.wordModulus
            && ((forall x :: x in t.Top().rules ==> !Column(m, x, REG_SP)) ==> REG_SP in s && s[REG_SP] == cfa))
  {
    hide Stands, A.Code, A.Encodable, Step, RowOf, Column, A.TwosComplement, CfaValue, Applied;
    var offset := if a.DefCfa? then n else n * env.dataAlignment;
    CfaSet(env, m, initial, bytes, c, a, r, n);
    var o := Step(env, initial, bytes, c);
    var rule := o.c.table.Top().cfa;
    if RowGives(m, now, cfa, o, regs, s) {
      CfaSum(m, now, rule, cfa, r, offset);
      if forall x :: x in o.c.table.Top().rules ==> !Column(m, x, REG_SP) {
        NoRule(m, now, rule, cfa, o.c.table.Top().rules, regs, s, REG_SP);
      }
    }
  }

  lemma CfaSet(env: Env, m: Target, initial: Rules, bytes: seq<uint8>, c: Config, a: A.Source, r: RegNum, n: int)
    requires StandsBefore(env, m, bytes, c, a)
    requires (n >= 0 && a == A.DefCfa(r, n)) || a == A.DefCfaSigned(r, n)
    ensures
      var o := Step(env, initial, bytes, c);
      && o.Running? && o.c.table.Valid() && o.c.table.Top().rules == c.table.Top().rules
      && o.c.table.Top().cfa ==
         if a.DefCfa? then RegisterOffset(r, n % m.wordModulus)
         else RegisterOffsetSigned(r, A.TwosComplement(n * env.dataAlignment, m.wordModulus))
  {
    hide Stands, A.Code, A.Encodable, Step, A.TwosComplement;
    Executed(env, m, initial, bytes, c, a);
  }

  /** A CFA rule holds its offset in a word, unsigned or signed; in the sum that does not matter. */
  lemma CfaSum(m: Target, now: ThreadState, c: CfaRule, cfa: nat, r: RegNum, offset: int)
    requires m.Valid() && CfaValue(m, now, c) == Ok(cfa)
    requires c == RegisterOffsetSigned(r, A.TwosComplement(offset, m.wordModulus))
             || c == RegisterOffset(r, offset % m.wordModulus)
    ensures
      var q := m.registerOf(r);
      q.Some? && q.value in now && cfa == (now[q.value] + offset) % m.wordModulus
  {
    hide CfaValue;
    CfaLaw(m, now, c);
    var q := m.registerOf(r);
    if q.Some? && q.value in now {
      SumResidue(now[q.value], offset, m.wordModulus);
    }
  }

  lemma SumResidue(x: int, offset: int, modulus: nat)
    requires modulus == TWO_TO_64 || modulus == 0x1_0000_0000
    ensures (x + offset % modulus) % modulus == (x + offset) % modulus
    ensures (x + A.TwosComplement(offset, modulus)) % modulus == (x + offset) % modulus
  {
    if modulus == TWO_TO_64 {
      Residue64(x, offset);
    } else {
      Residue32(x, offset);
    }
  }

  lemma Residue64(x: int, offset: int)
    ensures (x + offset % TWO_TO_64) % TWO_TO_64 == (x + offset) % TWO_TO_64
    ensures (x + (offset % TWO_TO_64 - TWO_TO_64)) % TWO_TO_64 == (x + offset) % TWO_TO_64
  {
  }

  lemma Residue32(x: int, offset: int)
    ensures (x + offset % 0x1_0000_0000) % 0x1_0000_0000 == (x + offset) % 0x1_0000_0000
    ensures (x + (offset % 0x1_0000_0000 - 0x1_0000_0000)) % 0x1_0000_0000 == (x + offset) % 0x1_0000_0000
  {
  }
}

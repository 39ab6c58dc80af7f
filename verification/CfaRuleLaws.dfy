/**
 * What each kind of rule in DWARF 4 section 6.4.1 gives the caller's registers, for the state after `apply_state`, in
 * terms of the current registers, the memory and the expressions alone.
 */
module CfaRuleLaws {
  import opened Common
  import opened CfaTable
  import opened CfaApply

  /** Column `r` stands for register `p`: its own, or for a return address without one the instruction pointer. */
  predicate Column(m: Target, r: RegNum, p: PlReg) {
    m.registerOf(r) == Some(p) || (m.registerOf(r).None? && r == m.returnAddressRegister && p == REG_IP)
  }

  /** The rules, one listed after the other, of columns with registers of their own. */
  ghost predicate RowOf(m: Target, rules: Rules, regs: seq<RegNum>) {
    && m.Valid() && Distinct(regs) && (forall r :: r in regs <==> r in rules)
    && (forall q, r, p :: q in rules && r in rules && Column(m, q, p) && Column(m, r, p) ==> q == r)
    && (forall r :: r in rules && Column(m, r, REG_IP) ==> r == m.returnAddressRegister)
  }

  /** The row and what applying it gives. */
  ghost predicate Gives(m: Target, now: ThreadState, c: CfaRule, cfa: nat, rules: Rules, regs: seq<RegNum>,
                        s: ThreadState)
  {
    && RowOf(m, rules, regs) && CfaValue(m, now, c) == Ok(cfa)
    && Applied(m, now, c, rules, regs) == Ok(s)
  }

  lemma ColumnIsRegister(m: Target, r: RegNum, p: PlReg)
    ensures Column(m, r, p) <==> m.RegisterFor(r) == Some(p)
  {
  }

  lemma RowIsSeparate(m: Target, rules: Rules, regs: seq<RegNum>)
    requires RowOf(m, rules, regs)
    ensures Separate(m, rules) && Elements(regs) == rules.Keys
  {
    forall q, r | q in rules && r in rules && q != r && m.RegisterFor(q).Some?
      ensures m.RegisterFor(q) != m.RegisterFor(r)
    {
      ColumnIsRegister(m, q, m.RegisterFor(q).value);
      ColumnIsRegister(m, r, m.RegisterFor(q).value);
    }
    forall r | r in rules && m.RegisterFor(r) == Some(REG_IP) ensures r == m.returnAddressRegister {
      ColumnIsRegister(m, r, REG_IP);
    }
  }

  lemma RuleGives(m: Target, now: ThreadState, c: CfaRule, cfa: nat, rules: Rules, regs: seq<RegNum>, s: ThreadState,
                  r: RegNum, p: PlReg)
    requires Gives(m, now, c, cfa, rules, regs, s) && r in rules && Column(m, r, p)
    ensures p in s && RuleValue(m, now, cfa, p, rules[r]) == Ok(s[p])
    ensures r == m.returnAddressRegister ==> REG_IP in s && s[REG_IP] == s[p]
  {
    hide RuleValue, ApplyInOrder, Prepared, Distinct, CfaValue;
    RowIsSeparate(m, rules, regs);
    InOrderIsPointwise(m, now, cfa, rules, regs);
    ColumnIsRegister(m, r, p);
    assert Lookup(s, p) == Pointwise(m, now, cfa, rules, Elements(regs), p);
    assert Lookup(s, REG_IP) == Pointwise(m, now, cfa, rules, Elements(regs), REG_IP);
  }

  /** `n` is the signed number `o` as a word of the target. */
  predicate IsWord(m: Target, n: nat, o: int) {
    m.wordModulus > 0 && 0 - m.wordModulus <= 2 * o < m.wordModulus && n == if o < 0 then o + m.wordModulus else o
  }

  lemma SignedOfWord(m: Target, n: nat, o: int)
    requires m.Valid() && IsWord(m, n, o)
    ensures m.SignedWord(n) == o
  {
  }

  /** offset(N): the word that is stored N bytes from the CFA. */
  lemma OffsetRule(m: Target, now: ThreadState, c: CfaRule, cfa: nat, rules: Rules, regs: seq<RegNum>, s: ThreadState,
                   r: RegNum, p: PlReg, o: int)
    requires Gives(m, now, c, cfa, rules, regs, s) && r in rules && Column(m, r, p)
    requires rules[r].kind == Offset && IsWord(m, rules[r].value, o)
    ensures 0 <= cfa + o <= ADDRESS_MAX && p in s && m.readWord(cfa + o) == Ok(s[p])
  {
    hide Gives, Column, Target.SignedWord;
    RowValid(m, now, c, cfa, rules, regs, s);
    RuleGives(m, now, c, cfa, rules, regs, s, r, p);
    SignedOfWord(m, rules[r].value, o);
  }

  lemma RowValid(m: Target, now: ThreadState, c: CfaRule, cfa: nat, rules: Rules, regs: seq<RegNum>, s: ThreadState)
    requires Gives(m, now, c, cfa, rules, regs, s)
    ensures m.Valid()
  {
  }

  /** val_offset(N): the CFA plus N, in a word. */
  lemma ValOffsetRule(m: Target, now: ThreadState, c: CfaRule, cfa: nat, rules: Rules, regs: seq<RegNum>,
                      s: ThreadState, r: RegNum, p: PlReg, o: int)
    requires Gives(m, now, c, cfa, rules, regs, s) && r in rules && Column(m, r, p)
    requires rules[r].kind == ValOffset && IsWord(m, rules[r].value, o)
    ensures p in s && s[p] == (cfa + o) % m.wordModulus
  {
    hide Gives, Column, Target.SignedWord;
    RowValid(m, now, c, cfa, rules, regs, s);
    RuleGives(m, now, c, cfa, rules, regs, s, r, p);
    SignedOfWord(m, rules[r].value, o);
  }

  /** register(R): what the other register holds now. */
  lemma RegisterRule(m: Target, now: ThreadState, c: CfaRule, cfa: nat, rules: Rules, regs: seq<RegNum>,
                     s: ThreadState, r: RegNum, p: PlReg)
    requires Gives(m, now, c, cfa, rules, regs, s) && r in rules && Column(m, r, p) && rules[r].kind == Register
    ensures
      var source := m.registerOf(rules[r].value);
      source.Some? && source.value in now && p in s && s[p] == now[source.value]
  {
    hide Gives, Column;
    RowValid(m, now, c, cfa, rules, regs, s);
    RuleGives(m, now, c, cfa, rules, regs, s, r, p);
  }

  /** same value: what the register holds now, also if it is not preserved otherwise. */
  lemma SameValueRule(m: Target, now: ThreadState, c: CfaRule, cfa: nat, rules: Rules, regs: seq<RegNum>,
                      s: ThreadState, r: RegNum, p: PlReg)
    requires Gives(m, now, c, cfa, rules, regs, s) && r in rules && Column(m, r, p) && rules[r].kind == SameValue
    ensures p in now && p in s && s[p] == now[p]
  {
    hide Gives, Column;
    RowValid(m, now, c, cfa, rules, regs, s);
    RuleGives(m, now, c, cfa, rules, regs, s, r, p);
  }

  /** val_expression(E): the value of the block, with the CFA on the stack. */
  lemma ValExpressionRule(m: Target, now: ThreadState, c: CfaRule, cfa: nat, rules: Rules, regs: seq<RegNum>,
                          s: ThreadState, r: RegNum, p: PlReg)
    requires Gives(m, now, c, cfa, rules, regs, s) && r in rules && Column(m, r, p) && rules[r].kind == ValExpression
    ensures p in s && m.evalRule(rules[r].value, cfa) == Ok(s[p])
  {
    hide Gives, Column;
    RowValid(m, now, c, cfa, rules, regs, s);
    RuleGives(m, now, c, cfa, rules, regs, s, r, p);
  }

  /** expression(E): the word that is stored where that value says. */
  lemma ExpressionRule(m: Target, now: ThreadState, c: CfaRule, cfa: nat, rules: Rules, regs: seq<RegNum>,
                       s: ThreadState, r: RegNum, p: PlReg)
    requires Gives(m, now, c, cfa, rules, regs, s) && r in rules && Column(m, r, p) && rules[r].kind == Expression
    ensures
      var address := m.evalRule(rules[r].value, cfa);
      address.Ok? && address.value <= ADDRESS_MAX && p in s && m.readWord(address.value) == Ok(s[p])
  {
    hide Gives, Column;
    RowValid(m, now, c, cfa, rules, regs, s);
    RuleGives(m, now, c, cfa, rules, regs, s, r, p);
  }

  /** The value of the return-address column is the caller's instruction pointer, whatever register the column has. */
  lemma ReturnAddressRule(m: Target, now: ThreadState, c: CfaRule, cfa: nat, rules: Rules, regs: seq<RegNum>,
                          s: ThreadState, r: RegNum, p: PlReg)
    requires Gives(m, now, c, cfa, rules, regs, s) && r in rules && Column(m, r, p) && r == m.returnAddressRegister
    ensures p in s && REG_IP in s && s[REG_IP] == s[p]
  {
    hide Gives, Column, RuleValue;
    RowValid(m, now, c, cfa, rules, regs, s);
    RuleGives(m, now, c, cfa, rules, regs, s, r, p);
  }

  /** Registers without a rule: the stack pointer is the CFA, the others stay if they are preserved across calls. */
  lemma NoRule(m: Target, now: ThreadState, c: CfaRule, cfa: nat, rules: Rules, regs: seq<RegNum>, s: ThreadState,
               p: PlReg)
    requires Gives(m, now, c, cfa, rules, regs, s)
    requires forall r :: r in rules ==> !Column(m, r, p) && (p == REG_IP ==> r != m.returnAddressRegister)
    ensures
      if p == REG_SP then p in s && s[p] == cfa
      else (p in s <==> p in now && p !in m.volatileRegs) && (p in s && p in now ==> s[p] == now[p])
  {
    hide RuleValue, ApplyInOrder, Distinct, CfaValue;
    RowIsSeparate(m, rules, regs);
    InOrderIsPointwise(m, now, cfa, rules, regs);
    assert Lookup(s, p) == Pointwise(m, now, cfa, rules, Elements(regs), p);
    forall r | r in rules ensures m.RegisterFor(r) != Some(p) {
      ColumnIsRegister(m, r, p);
    }
  }

  /** The CFA itself, for every kind of CFA rule, and what it is refused with. */
  lemma CfaLaw(m: Target, now: ThreadState, c: CfaRule)
    requires m.Valid()
    ensures c.Undefined? ==> CfaValue(m, now, c) == Err(EINVAL)
    ensures c.CfaExpression? ==> CfaValue(m, now, c) == m.evalCfa(c.address, c.length)
    ensures c.RegisterOffset? || c.RegisterOffsetSigned? ==>
              var q := m.registerOf(c.regnum);
              var n := if c.RegisterOffset? then c.offset else c.soffset;
              && (q.None? ==> CfaValue(m, now, c) == Err(ENOTSUP))
              && (q.Some? && q.value !in now ==> CfaValue(m, now, c) == Err(ENOTFOUND))
              && (q.Some? && q.value in now ==> CfaValue(m, now, c) == Ok((now[q.value] + n) % m.wordModulus))
  {
  }

  /** Without a CFA no rule is applied. */
  lemma CfaRefused(m: Target, now: ThreadState, c: CfaRule, rules: Rules, regs: seq<RegNum>)
    requires m.Valid() && CfaValue(m, now, c).Err? && forall r :: r in regs ==> r in rules
    ensures Applied(m, now, c, rules, regs) == Err(CfaValue(m, now, c).error)
  {
  }

  function ErrorOf(r: Result<nat>): Option<Error> {
    if r.Err? then Some(r.error) else None
  }

  function Stored(m: Target, address: int): Option<Error> {
    if 0 <= address <= ADDRESS_MAX then ErrorOf(m.readWord(address)) else Some(ENOMEM)
  }

  /** The error that a rule is refused with, if it is. */
  function Refusal(m: Target, now: ThreadState, cfa: nat, r: RegNum, rule: RegRule): Option<Error>
    requires m.wordModulus > 0
  {
    var p := if m.registerOf(r).Some? then m.registerOf(r).value else REG_IP;
    var n := rule.value % m.wordModulus;
    if m.registerOf(r).None? && r != m.returnAddressRegister then Some(EINVAL)
    else
      match rule.kind
      case Offset => Stored(m, cfa + if n < m.wordModulus / 2 then n else n - m.wordModulus)
      case ValOffset => None
      case Register =>
        if m.registerOf(rule.value).None? then Some(EINVAL)
        else if m.registerOf(rule.value).value !in now then Some(ENOTFOUND)
        else None
      case SameValue => if p in now then None else Some(ENOTFOUND)
      case ValExpression => ErrorOf(m.evalRule(rule.value, cfa))
      case Expression =>
        var address := m.evalRule(rule.value, cfa);
        if address.Err? then Some(address.error) else Stored(m, address.value)
  }

  lemma RuleRefused(m: Target, now: ThreadState, cfa: nat, r: RegNum, rule: RegRule, next: ThreadState)
    requires m.Valid()
    ensures
      var a := ApplyRule(m, now, cfa, r, rule, next);
      Refusal(m, now, cfa, r, rule) == if a.Err? then Some(a.error) else None
  {
  }

  /**
   * In any row and any order: applying succeeds if no rule is refused, and else fails as the first refused rule does.
   */
  lemma {:induction false} FirstRefusal(m: Target, now: ThreadState, c: CfaRule, cfa: nat, rules: Rules,
                                        regs: seq<RegNum>)
    requires m.Valid() && CfaValue(m, now, c) == Ok(cfa) && forall r :: r in regs ==> r in rules
    ensures
      var a := Applied(m, now, c, rules, regs);
      if a.Ok? then forall r :: r in regs ==> Refusal(m, now, cfa, r, rules[r]) == None
      else exists i: nat :: i < |regs| && Refusal(m, now, cfa, regs[i], rules[regs[i]]) == Some(a.error)
                            && forall j: nat :: j < i ==> Refusal(m, now, cfa, regs[j], rules[regs[j]]) == None
  {
    hide Refusal, CfaValue, ApplyRule, Prepared;
    if regs != [] {
      var n := |regs| - 1;
      FirstRefusal(m, now, c, cfa, rules, regs[..n]);
      var before := Applied(m, now, c, rules, regs[..n]);
      if before.Ok? {
        RuleRefused(m, now, cfa, regs[n], rules[regs[n]], before.value);
        forall r | r in regs ensures r == regs[n] || r in regs[..n] {
        }
      } else {
        var i: nat :| i < n && Refusal(m, now, cfa, regs[..n][i], rules[regs[..n][i]]) == Some(before.error)
                      && forall j: nat :: j < i ==> Refusal(m, now, cfa, regs[..n][j], rules[regs[..n][j]]) == None;
        assert regs[i] == regs[..n][i];
        forall j: nat | j < i ensures Refusal(m, now, cfa, regs[j], rules[regs[j]]) == None {
          assert regs[j] == regs[..n][j];
        }
      }
    }
  }
}

/**
 * `apply_state`: turns the current row into the caller's registers. The register map, the target's memory and the
 * evaluation of DWARF expressions are parameters.
 */
module CfaApply {
  import opened Common
  import opened CfaTable
  import opened CfaEnumeration
  import opened CfaStateClass
  import opened CfaIteratorClass

  datatype Target = Target(
    registerOf: nat -> Option<PlReg>,
    volatileRegs: set<PlReg>,
    wordModulus: nat,
    /** Reads a saved word at an address. */
    readWord: nat -> Result<nat>,
    /** Evaluates the expression opcodes of a CFA rule. */
    evalCfa: (nat, nat) -> Result<nat>,
    /** Evaluates a rule's expression block at an address, with the CFA on the stack. */
    evalRule: (nat, nat) -> Result<nat>,
    returnAddressRegister: nat)
  {
    predicate Valid() {
      wordModulus == 0x1_0000_0000 || wordModulus == TWO_TO_64
    }

    function Word(x: int): nat
      requires Valid()
    {
      WordOf(x, wordModulus)
    }

    function SignedWord(x: int): int
      requires Valid()
    {
      SignedWordOf(x, wordModulus)
    }

    /** `task_memcpy` of one word. */
    function ReadAt(address: nat, offset: int): Result<nat> {
      if 0 <= address + offset <= ADDRESS_MAX then readWord(address + offset) else Err(ENOMEM)
    }

    /** The register a rule goes to: a return-address column without a register of its own stands for the IP. */
    function RegisterFor(r: RegNum): Option<PlReg> {
      if registerOf(r).Some? then registerOf(r)
      else if r == returnAddressRegister then Some(REG_IP)
      else None
    }
  }

  function CfaOffset(cfa: CfaRule): int {
    match cfa
    case RegisterOffset(_, offset) => offset
    case RegisterOffsetSigned(_, offset) => offset
    case _ => 0
  }

  function CfaValue(m: Target, now: ThreadState, cfa: CfaRule): Result<nat>
    requires m.Valid()
  {
    match cfa
    case Undefined => Err(EINVAL)
    case CfaExpression(address, length) => m.evalCfa(address, length)
    case _ =>
      match m.registerOf(cfa.regnum)
      case None => Err(ENOTSUP)
      case Some(p) =>
        if p !in now then Err(ENOTFOUND)
        else Ok(m.Word(now[p] + CfaOffset(cfa)))
  }

  /** What a rule gives its register `p`. */
  function RuleValue(m: Target, now: ThreadState, cfa: nat, p: PlReg, rule: RegRule): Result<nat>
    requires m.Valid()
  {
    match rule.kind
    case Offset => m.ReadAt(cfa, m.SignedWord(rule.value))
    case ValOffset => Ok(m.Word(cfa + m.SignedWord(rule.value)))
    case Register => (
      match m.registerOf(rule.value)
      case None => Err(EINVAL)
      case Some(source) => if source in now then Ok(now[source]) else Err(ENOTFOUND))
    case ValExpression => m.evalRule(rule.value, cfa)
    case Expression => (
      match m.evalRule(rule.value, cfa)
      case Err(e) => Err(e)
      case Ok(address) => m.ReadAt(address, 0))
    case SameValue => if p in now then Ok(now[p]) else Err(ENOTFOUND)
  }

  /** One iteration over the rules. */
  function ApplyRule(m: Target, now: ThreadState, cfa: nat, r: RegNum, rule: RegRule,
      next: ThreadState): Result<ThreadState>
    requires m.Valid()
  {
    match m.RegisterFor(r)
    case None => Err(EINVAL)
    case Some(p) =>
      match RuleValue(m, now, cfa, p, rule)
      case Err(e) => Err(e)
      case Ok(v) =>
        var updated := next[p := v];
        Ok(if r == m.returnAddressRegister && p != REG_IP then updated[REG_IP := v] else updated)
  }

  /** The rules of `regs`, applied in that order. */
  function ApplyInOrder(m: Target, now: ThreadState, cfa: nat, rules: Rules, regs: seq<RegNum>,
      next: ThreadState): Result<ThreadState>
    requires m.Valid() && forall r :: r in regs ==> r in rules
  {
    if regs == [] then Ok(next)
    else
      var last := regs[|regs| - 1];
      match ApplyInOrder(m, now, cfa, rules, regs[..|regs| - 1], next)
      case Err(e) => Err(e)
      case Ok(s) => ApplyRule(m, now, cfa, last, rules[last], s)
  }

  /** The state before any rule: non-volatile registers, and the CFA as stack pointer. */
  function Prepared(m: Target, now: ThreadState, cfa: nat): ThreadState {
    (now - m.volatileRegs)[REG_SP := cfa]
  }

  /** The CFA first, and then the rules. */
  function Applied(m: Target, now: ThreadState, rule: CfaRule, rules: Rules, regs: seq<RegNum>): Result<ThreadState>
    requires m.Valid() && forall r :: r in regs ==> r in rules
  {
    match CfaValue(m, now, rule)
    case Err(e) => Err(e)
    case Ok(cfa) => ApplyInOrder(m, now, cfa, rules, regs, Prepared(m, now, cfa))
  }

  lemma {:induction false} FailureStays(m: Target, now: ThreadState, cfa: nat, rules: Rules, regs: seq<RegNum>,
      n: nat, next: ThreadState)
    requires m.Valid() && (forall r :: r in regs ==> r in rules) && n <= |regs|
    requires ApplyInOrder(m, now, cfa, rules, regs[..n], next).Err?
    ensures ApplyInOrder(m, now, cfa, rules, regs, next) == ApplyInOrder(m, now, cfa, rules, regs[..n], next)
  {
    if n == |regs| {
      assert regs[..n] == regs;
    } else {
      assert regs[..|regs| - 1][..n] == regs[..n];
      FailureStays(m, now, cfa, rules, regs[..|regs| - 1], n, next);
    }
  }

  lemma NoneApplied(m: Target, now: ThreadState, cfa: nat, rules: Rules, regs: seq<RegNum>, next: ThreadState)
    requires m.Valid()
    ensures ApplyInOrder(m, now, cfa, rules, regs[..0], next) == Ok(next)
  {
  }

  lemma AppliedNext(m: Target, now: ThreadState, cfa: nat, rules: Rules, regs: seq<RegNum>, n: nat, next: ThreadState)
    requires m.Valid() && (forall r :: r in regs ==> r in rules) && 0 < n <= |regs|
    requires ApplyInOrder(m, now, cfa, rules, regs[..n - 1], next).Ok?
    ensures ApplyInOrder(m, now, cfa, rules, regs[..n], next) ==
            ApplyRule(m, now, cfa, regs[n - 1], rules[regs[n - 1]],
                      ApplyInOrder(m, now, cfa, rules, regs[..n - 1], next).value)
  {
    hide ApplyRule;
    assert regs[..n][..n - 1] == regs[..n - 1];
  }

  /** `apply_state`: the rules in the order of the iterator. */
  method ApplyState(m: Target, s: CfaState, now: ThreadState) returns (result: Result<ThreadState>)
    requires m.Valid() && s.Valid()
    ensures s.Valid()
    ensures forall r :: r in s.Enumeration() ==> r in s.table.Top().rules
    ensures result == Applied(m, now, s.table.Top().cfa, s.table.Top().rules, s.Enumeration())
  {
    hide CfaState.Valid, CfaStateIterator.Valid, CfaState.Enumeration, Distinct, ApplyRule, RuleValue, ApplyInOrder, CfaValue,
      Prepared;
    s.EnumerationListsRules();
    ghost var regs, rules := s.Enumeration(), s.table.Top().rules;
    EnumeratedAreRules(regs, rules);
    var rule := s.GetCfaRule();
    var cfa := CfaValue(m, now, rule);
    if cfa.Err? {
      return Err(cfa.error);
    }
    var next := Prepared(m, now, cfa.value);
    var iter := new CfaStateIterator(s);
    NoneApplied(m, now, cfa.value, rules, regs, next);
    ghost var n := 0;
    var more, regnum, kind, value := iter.Next();
    while more
      invariant s.Valid() && iter.stack == s && fresh(iter) && iter.Valid()
      invariant s.Enumeration() == regs && s.table.Top().rules == rules
      invariant n <= |regs| && more == (n < |regs|)
      invariant more ==> iter.yielded == n + 1 && regnum == regs[n] && rules[regnum] == RegRule(kind, value)
      invariant !more ==> iter.yielded == n
      invariant ApplyInOrder(m, now, cfa.value, rules, regs[..n], Prepared(m, now, cfa.value)) == Ok(next)
      decreases |regs| - n, more
    {
      var applied := ApplyRule(m, now, cfa.value, regnum, RegRule(kind, value), next);
      n := n + 1;
      AppliedNext(m, now, cfa.value, rules, regs, n, Prepared(m, now, cfa.value));
      if applied.Err? {
        FailureStays(m, now, cfa.value, rules, regs, n, Prepared(m, now, cfa.value));
        return Err(applied.error);
      }
      next := applied.value;
      more, regnum, kind, value := iter.Next();
    }
    assert regs[..n] == regs;
    return Ok(next);
  }

  lemma EnumeratedAreRules(regs: seq<RegNum>, rules: Rules)
    requires Elements(regs) == rules.Keys
    ensures forall r :: r in regs <==> r in rules
  {
    assert forall r :: r in regs <==> r in Elements(regs);
  }

  /** No two rules go to one register, and none but the return address to the instruction pointer. */
  ghost predicate Separate(m: Target, rules: Rules) {
    && (forall q, r :: q in rules && r in rules && q != r && m.RegisterFor(q).Some? ==> m.RegisterFor(q) != m.RegisterFor(r))
    && (forall r :: r in rules && m.RegisterFor(r) == Some(REG_IP) ==> r == m.returnAddressRegister)
  }

  /** Every one of the rules has a register and a value. */
  ghost predicate AllApply(m: Target, now: ThreadState, cfa: nat, rules: Rules, done: set<RegNum>)
    requires m.Valid()
  {
    forall r :: r in done && r in rules ==>
      m.RegisterFor(r).Some? && RuleValue(m, now, cfa, m.RegisterFor(r).value, rules[r]).Ok?
  }

  /**
   * The value of register `p` once the rules of `done` have been applied, read off the rules alone: the rule that
   * goes to `p`, or for the IP the return-address rule, or else what was there before.
   */
  ghost function Pointwise(m: Target, now: ThreadState, cfa: nat, rules: Rules, done: set<RegNum>,
      p: PlReg): Option<nat>
    requires m.Valid() && AllApply(m, now, cfa, rules, done)
  {
    if exists r :: r in done && r in rules && m.RegisterFor(r) == Some(p) then
      var r :| r in done && r in rules && m.RegisterFor(r) == Some(p);
      Some(RuleValue(m, now, cfa, p, rules[r]).value)
    else if p == REG_IP && m.returnAddressRegister in done && m.returnAddressRegister in rules then
      Some(RuleValue(m, now, cfa, m.RegisterFor(m.returnAddressRegister).value, rules[m.returnAddressRegister]).value)
    else if p in Prepared(m, now, cfa) then Some(Prepared(m, now, cfa)[p])
    else None
  }

  ghost predicate IsPointwise(m: Target, now: ThreadState, cfa: nat, rules: Rules, done: set<RegNum>, s: ThreadState)
    requires m.Valid() && AllApply(m, now, cfa, rules, done)
  {
    forall p :: Lookup(s, p) == Pointwise(m, now, cfa, rules, done, p)
  }

  lemma ApplyOne(m: Target, now: ThreadState, cfa: nat, rules: Rules, done: set<RegNum>, r: RegNum, s: ThreadState)
    requires m.Valid() && Separate(m, rules) && r in rules && r !in done
    requires AllApply(m, now, cfa, rules, done) && IsPointwise(m, now, cfa, rules, done, s)
    ensures
      var a := ApplyRule(m, now, cfa, r, rules[r], s);
      && (a.Ok? <==> AllApply(m, now, cfa, rules, done + {r}))
      && (a.Ok? ==> IsPointwise(m, now, cfa, rules, done + {r}, a.value))
  {
    hide RuleValue;
    var a := ApplyRule(m, now, cfa, r, rules[r], s);
    assert r in done + {r};
    if a.Ok? {
      var q := m.RegisterFor(r).value;
      forall p
        ensures Lookup(a.value, p) == Pointwise(m, now, cfa, rules, done + {r}, p)
      {
        ApplyOneAt(m, now, cfa, rules, done, r, s, p);
      }
    }
  }

  function Lookup(s: ThreadState, p: PlReg): Option<nat> {
    if p in s then Some(s[p]) else None
  }

  /** What one rule does to register `p`. */
  lemma AppliedAt(m: Target, now: ThreadState, cfa: nat, r: RegNum, rule: RegRule, s: ThreadState, p: PlReg)
    requires m.Valid() && ApplyRule(m, now, cfa, r, rule, s).Ok?
    ensures m.RegisterFor(r).Some? && RuleValue(m, now, cfa, m.RegisterFor(r).value, rule).Ok?
    ensures
      var q := m.RegisterFor(r).value;
      Lookup(ApplyRule(m, now, cfa, r, rule, s).value, p) ==
      if p == q || (r == m.returnAddressRegister && p == REG_IP) then Some(RuleValue(m, now, cfa, q, rule).value)
      else Lookup(s, p)
  {
    hide RuleValue, Target.RegisterFor;
  }

  lemma ApplyOneAt(m: Target, now: ThreadState, cfa: nat, rules: Rules, done: set<RegNum>, r: RegNum, s: ThreadState,
      p: PlReg)
    requires m.Valid() && Separate(m, rules) && r in rules && r !in done
    requires AllApply(m, now, cfa, rules, done) && IsPointwise(m, now, cfa, rules, done, s)
    requires ApplyRule(m, now, cfa, r, rules[r], s).Ok?
    ensures AllApply(m, now, cfa, rules, done + {r})
    ensures
      var a := ApplyRule(m, now, cfa, r, rules[r], s).value;
      Lookup(a, p) == Pointwise(m, now, cfa, rules, done + {r}, p)
  {
    hide RuleValue, ApplyRule, Target.RegisterFor, Prepared, Lookup;
    AppliedAt(m, now, cfa, r, rules[r], s, p);
    var q := m.RegisterFor(r).value;
    assert Pointwise(m, now, cfa, rules, done, p) == Lookup(s, p);
    if exists t :: t in done + {r} && t in rules && m.RegisterFor(t) == Some(p) {
      var t :| t in done + {r} && t in rules && m.RegisterFor(t) == Some(p);
      assert p == q <==> t == r;
    }
  }

  lemma {:induction false} InOrderIsPointwise(m: Target, now: ThreadState, cfa: nat, rules: Rules, regs: seq<RegNum>)
    requires m.Valid() && Separate(m, rules) && Distinct(regs) && forall r :: r in regs ==> r in rules
    ensures
      var result := ApplyInOrder(m, now, cfa, rules, regs, Prepared(m, now, cfa));
      && (result.Ok? <==> AllApply(m, now, cfa, rules, Elements(regs)))
      && (result.Ok? ==> IsPointwise(m, now, cfa, rules, Elements(regs), result.value))
  {
    hide RuleValue, ApplyRule, Pointwise, Separate;
    if regs == [] {
      NothingApplied(m, now, cfa, rules);
    } else {
      var n := |regs| - 1;
      var before, last := regs[..n], regs[n];
      InOrderIsPointwise(m, now, cfa, rules, before);
      assert Elements(regs) == Elements(before) + {last};
      assert last !in before;
      var done := ApplyInOrder(m, now, cfa, rules, before, Prepared(m, now, cfa));
      if done.Ok? {
        ApplyOne(m, now, cfa, rules, Elements(before), last, done.value);
      }
    }
  }

  lemma NothingApplied(m: Target, now: ThreadState, cfa: nat, rules: Rules)
    requires m.Valid()
    ensures AllApply(m, now, cfa, rules, Elements<RegNum>([]))
    ensures IsPointwise(m, now, cfa, rules, Elements<RegNum>([]), Prepared(m, now, cfa))
  {
    hide RuleValue;
  }

  /**
   * The caller's registers are a pointwise function of the rules, the CFA and the current registers: whatever order the
   * buckets and chains enumerate the rules in, application succeeds or fails alike, and gives the same state.
   */
  lemma OrderDoesNotMatter(m: Target, now: ThreadState, cfa: nat, rules: Rules, regs: seq<RegNum>, other: seq<RegNum>)
    requires m.Valid() && Separate(m, rules)
    requires Distinct(regs) && Elements(regs) == rules.Keys && Distinct(other) && Elements(other) == rules.Keys
    ensures (forall r :: r in regs ==> r in rules) && (forall r :: r in other ==> r in rules)
    ensures
      var a := ApplyInOrder(m, now, cfa, rules, regs, Prepared(m, now, cfa));
      var b := ApplyInOrder(m, now, cfa, rules, other, Prepared(m, now, cfa));
      && (a.Ok? <==> b.Ok?) && (a.Ok? ==> a == b)
      && (a.Ok? <==> AllApply(m, now, cfa, rules, rules.Keys))
      && (a.Ok? ==> IsPointwise(m, now, cfa, rules, rules.Keys, a.value))
  {
    hide RuleValue, ApplyRule, Pointwise, Separate, ApplyInOrder, Distinct, Prepared;
    EnumeratedAreRules(regs, rules);
    EnumeratedAreRules(other, rules);
    InOrderIsPointwise(m, now, cfa, rules, regs);
    InOrderIsPointwise(m, now, cfa, rules, other);
    var a := ApplyInOrder(m, now, cfa, rules, regs, Prepared(m, now, cfa));
    var b := ApplyInOrder(m, now, cfa, rules, other, Prepared(m, now, cfa));
    if a.Ok? {
      SamePoints(m, now, cfa, rules, a.value, b.value);
    }
  }

  lemma SamePoints(m: Target, now: ThreadState, cfa: nat, rules: Rules, a: ThreadState, b: ThreadState)
    requires m.Valid() && AllApply(m, now, cfa, rules, rules.Keys)
    requires IsPointwise(m, now, cfa, rules, rules.Keys, a) && IsPointwise(m, now, cfa, rules, rules.Keys, b)
    ensures a == b
  {
    hide RuleValue, Pointwise, AllApply;
    forall p ensures (p in a <==> p in b) && (p in a && p in b ==> a[p] == b[p]) {
      var v := Pointwise(m, now, cfa, rules, rules.Keys, p);
      assert Lookup(a, p) == v && Lookup(b, p) == v;
    }
  }

  lemma TwoRules(m: Target, now: ThreadState, cfa: nat, rules: Rules, q: RegNum, r: RegNum)
    requires m.Valid() && q in rules && r in rules
    ensures
      var start := Prepared(m, now, cfa);
      var first := ApplyRule(m, now, cfa, q, rules[q], start);
      first.Ok? ==> ApplyInOrder(m, now, cfa, rules, [q, r], start) == ApplyRule(m, now, cfa, r, rules[r], first.value)
  {
    hide ApplyRule, Prepared;
    var start := Prepared(m, now, cfa);
    var both, one: seq<RegNum> := [q, r], [q];
    assert both[..1] == one && one[..0] == [];
    assert ApplyInOrder(m, now, cfa, rules, [], start) == Ok(start);
    assert ApplyInOrder(m, now, cfa, rules, one, start) == ApplyRule(m, now, cfa, q, rules[q], start);
  }

  /**
   * Without the separation the order does show: a second rule for the IP wins or loses against the return address.
   * Both are in one bucket, so both orders occur; see module CfaHistories.
   */
  lemma OrderMattersForTwoIpRules(m: Target, now: ThreadState, cfa: nat, rules: Rules, q: RegNum)
    requires m.Valid() && m.returnAddressRegister <= UINT32_MAX && q != m.returnAddressRegister
    requires q % BUCKET_COUNT == m.returnAddressRegister % BUCKET_COUNT
    requires
      var ra: RegNum := m.returnAddressRegister;
      && rules == map[q := RegRule(ValOffset, 0), ra := RegRule(ValOffset, 1)]
      && m.registerOf(q) == Some(REG_IP) && m.registerOf(ra).Some? && m.registerOf(ra) != Some(REG_IP)
    ensures
      var ra: RegNum := m.returnAddressRegister;
      var a := ApplyInOrder(m, now, cfa, rules, [q, ra], Prepared(m, now, cfa));
      var b := ApplyInOrder(m, now, cfa, rules, [ra, q], Prepared(m, now, cfa));
      && BucketOrder([q, ra]) && BucketOrder([ra, q])
      && a.Ok? && b.Ok? && REG_IP in a.value && REG_IP in b.value && a.value[REG_IP] != b.value[REG_IP]
  {
    hide Target.Word, Target.SignedWord, ApplyInOrder;
    var ra: RegNum := m.returnAddressRegister;
    TwoRules(m, now, cfa, rules, q, ra);
    TwoRules(m, now, cfa, rules, ra, q);
    NeighboursDiffer(m, cfa);
  }

  lemma NeighboursDiffer(m: Target, cfa: nat)
    requires m.Valid()
    ensures m.Word(cfa + m.SignedWord(0)) != m.Word(cfa + m.SignedWord(1))
  {
    assert m.SignedWord(0) == 0 && m.SignedWord(1) == 1;
    if m.wordModulus == TWO_TO_64 {
      assert (cfa + 1) % TWO_TO_64 != cfa % TWO_TO_64;
    } else {
      assert (cfa + 1) % 0x1_0000_0000 != cfa % 0x1_0000_0000;
    }
  }
}

/** Histories of calls that fill a row in a chosen order: every order that the buckets allow occurs in some state. */
module CfaHistories {
  import opened Common
  import opened CfaTable
  import opened CfaEnumeration
  import opened CfaStateClass
  import opened CfaApply
  import opened CfaApplyOrder

  /** The rules of the registers listed so far. */
  function Recorded(rules: Rules, regs: seq<RegNum>): Rules {
    map r | r in rules && r in regs :: rules[r]
  }

  /** A register of a bucket that no listed one is behind goes to the end. */
  lemma {:induction false} InsertedLast(regs: seq<RegNum>, r: RegNum)
    requires forall i :: 0 <= i < |regs| ==> regs[i] % BUCKET_COUNT <= r % BUCKET_COUNT
    ensures Inserted(regs, r) == regs + [r]
  {
    InsertedBetween(regs, [], r);
    assert regs + [] == regs && regs + [r] + [] == regs + [r];
  }

  lemma RecordedNext(rules: Rules, regs: seq<RegNum>, n: nat)
    requires Lists(regs, rules) && n < |regs|
    ensures regs[n] in rules && regs[n] !in Recorded(rules, regs[..n])
    ensures Recorded(rules, regs[..n])[regs[n] := rules[regs[n]]] == Recorded(rules, regs[..n + 1])
    ensures Inserted(regs[..n], regs[n]) == regs[..n + 1]
  {
    InsertedLast(regs[..n], regs[n]);
    assert regs[..n + 1] == regs[..n] + [regs[n]];
  }

  /**
   * Setting the rules one by one, in an order that keeps the buckets apart, leaves a row with these rules which the
   * iterator walks in that order.
   */
  method Record(regs: seq<RegNum>, rules: Rules, cfa: CfaRule) returns (s: CfaState)
    requires Lists(regs, rules) && |regs| <= MAX_REGISTERS
    ensures s.Valid() && fresh(s.Repr)
    ensures s.table.rows == [Row(rules, cfa)] && s.Enumeration() == regs
  {
    hide CfaState.Valid, CfaState.Enumeration, Lists, Inserted, Recorded, Distinct, BucketOrder;
    s := new CfaState();
    s.SetCfa(cfa);
    s.EnumerationListsRules();
    RecordedNone(rules, regs);
    var n := 0;
    while n < |regs|
      invariant n <= |regs| && s.Valid() && fresh(s.Repr)
      invariant s.table.rows == [Row(Recorded(rules, regs[..n]), cfa)] && |s.table.stale| == MAX_REGISTERS - n
      invariant s.Enumeration() == regs[..n]
    {
      RecordedNext(rules, regs, n);
      var ok := s.SetRegister(regs[n], rules[regs[n]].kind, rules[regs[n]].value);
      n := n + 1;
    }
    RecordedAll(rules, regs);
  }

  lemma RecordedNone(rules: Rules, regs: seq<RegNum>)
    ensures Recorded(rules, regs[..0]) == map[]
  {
  }

  lemma RecordedAll(rules: Rules, regs: seq<RegNum>)
    requires Lists(regs, rules)
    ensures Recorded(rules, regs[..|regs|]) == rules && regs[..|regs|] == regs
  {
  }

  function IpRules(q: RegNum, ra: RegNum): Rules {
    map[q := RegRule(ValOffset, 0), ra := RegRule(ValOffset, 1)]
  }

  /**
   * Two states with one row, filled in two orders: applying them gives two instruction pointers. The row has a rule
   * for the return address and another, of the same bucket, for the instruction pointer.
   */
  method TwoHistories(m: Target, now: ThreadState, cfa: CfaRule, q: RegNum)
    returns (s: CfaState, t: CfaState, a: Result<ThreadState>, b: Result<ThreadState>)
    requires m.Valid() && m.returnAddressRegister <= UINT32_MAX && q != m.returnAddressRegister
    requires q % BUCKET_COUNT == m.returnAddressRegister % BUCKET_COUNT
    requires m.registerOf(q) == Some(REG_IP)
    requires m.registerOf(m.returnAddressRegister).Some? && m.registerOf(m.returnAddressRegister) != Some(REG_IP)
    requires CfaValue(m, now, cfa).Ok?
    ensures s.Valid() && t.Valid()
    ensures
      var ra: RegNum := m.returnAddressRegister;
      && s.table.rows == t.table.rows == [Row(IpRules(q, ra), cfa)]
      && s.Enumeration() == [q, ra] && a == Applied(m, now, cfa, IpRules(q, ra), [q, ra])
      && t.Enumeration() == [ra, q] && b == Applied(m, now, cfa, IpRules(q, ra), [ra, q])
    ensures a.Ok? && b.Ok? && REG_IP in a.value && REG_IP in b.value && a.value[REG_IP] != b.value[REG_IP]
  {
    hide CfaState.Valid, CfaState.Enumeration, ApplyInOrder, CfaValue;
    var ra: RegNum := m.returnAddressRegister;
    var rules := IpRules(q, ra);
    s := Record([q, ra], rules, cfa);
    t := Record([ra, q], rules, cfa);
    OrderMattersForTwoIpRules(m, now, CfaValue(m, now, cfa).value, rules, q);
    a := ApplyState(m, s, now);
    b := ApplyState(m, t, now);
  }
}

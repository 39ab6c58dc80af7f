/** What every run of table operations keeps. */
module CfaTableRuns {
  import opened Common
  import opened CfaTable

  datatype Op =
    | Set(r: RegNum, rule: RegRule)
    | Remove(r: RegNum)
    | SetCfaRule(cfa: CfaRule)
    | Push
    | Pop

  /**
   * The operation of the table, where failing ones change nothing. A removal that never ends in the code, as
   * RemovalDiverges says, ends here: the runs below include more histories than the code has.
   */
  function Apply(t: Table, op: Op): (t': Table)
    requires t.Valid()
    ensures t'.Valid()
  {
    match op
    case Set(r, rule) => t.SetRegister(r, rule)
    case Remove(r) => t.RemoveRegister(r)
    case SetCfaRule(cfa) => t.SetCfa(cfa)
    case Push => t.PushState()
    case Pop => t.PopState()
  }

  function ApplyAll(t: Table, ops: seq<Op>): (t': Table)
    requires t.Valid()
    ensures t'.Valid()
    decreases ops
  {
    if ops == [] then t else ApplyAll(Apply(t, ops[0]), ops[1..])
  }

  /** The run never returns to a depth of `n` rows or less. */
  predicate StaysAbove(t: Table, ops: seq<Op>, n: nat)
    requires t.Valid()
    decreases ops
  {
    |t.rows| > n && (ops != [] ==> StaysAbove(Apply(t, ops[0]), ops[1..], n))
  }

  lemma {:induction false} SavedRowsUntouched(t: Table, ops: seq<Op>, n: nat)
    requires t.Valid() && StaysAbove(t, ops, n)
    ensures |ApplyAll(t, ops).rows| > n && ApplyAll(t, ops).rows[..n] == t.rows[..n]
    decreases ops
  {
    if ops != [] {
      SavedRowsUntouched(Apply(t, ops[0]), ops[1..], n);
      assert Apply(t, ops[0]).rows[..n] == t.rows[..n];
    }
  }

  /**
   * `pop_state` gives back exactly the rules, count and CFA rule that were current at the matching `push_state`,
   * whatever was set, removed, pushed and popped above it.
   */
  lemma PopRestoresPushedState(t: Table, ops: seq<Op>)
    requires t.Valid() && t.CanPush() && StaysAbove(t.PushState(), ops, |t.rows|)
    requires |ApplyAll(t.PushState(), ops).rows| == |t.rows| + 1
    ensures ApplyAll(t.PushState(), ops).PopState().rows == t.rows
  {
    SavedRowsUntouched(t.PushState(), ops, |t.rows|);
    assert t.PushState().rows[..|t.rows|] == t.rows;
  }

  function RuleCount(rows: seq<Row>): nat {
    if rows == [] then 0 else RuleCount(rows[..|rows| - 1]) + |rows[|rows| - 1].rules|
  }

  /** The entries that the pops of a run abandon: all that the discarded tables held. */
  function Abandoned(t: Table, ops: seq<Op>): nat
    requires t.Valid()
    decreases ops
  {
    if ops == [] then 0
    else (if ops[0].Pop? && t.CanPop() then |t.Top().rules| else 0) + Abandoned(Apply(t, ops[0]), ops[1..])
  }

  lemma CountOfTop(t: Table, top: Row)
    requires t.Valid()
    ensures RuleCount(t.rows) == RuleCount(t.rows[..|t.rows| - 1]) + |t.Top().rules|
    ensures RuleCount(t.WithTop(top).rows) == RuleCount(t.rows[..|t.rows| - 1]) + |top.rules|
  {
    assert t.WithTop(top).rows[..|t.rows| - 1] == t.rows[..|t.rows| - 1];
  }

  lemma CountAfter(t: Table, op: Op)
    requires t.Valid()
    ensures |Apply(t, op).stale| + RuleCount(Apply(t, op).rows) + Abandoned(t, [op]) == |t.stale| + RuleCount(t.rows)
  {
    hide RuleCount, Table.CanSet, Table.RemovalDiverges;
    assert Abandoned(Apply(t, op), [op][1..]) == 0;
    CountOfTop(t, t.Top());
    match op
    case Set(r, rule) =>
      CountOfTop(t, t.Top().(rules := WithRule(t.Top().rules, r, rule)));
    case Remove(r) =>
      CountWithout(t.Top().rules, r);
      CountOfTop(t, t.Top().(rules := WithoutRule(t.Top().rules, r)));
    case SetCfaRule(cfa) =>
      CountOfTop(t, t.Top().(cfa := cfa));
    case Push =>
      CountPushed(t.rows);
    case Pop =>
  }

  lemma CountWithout(rules: Rules, r: RegNum)
    ensures |WithoutRule(rules, r)| == |rules| - if r in rules then 1 else 0
  {
    if r !in rules {
      assert WithoutRule(rules, r) == rules;
    }
  }

  lemma CountPushed(rows: seq<Row>)
    ensures RuleCount(rows + [Row(map[], Undefined)]) == RuleCount(rows)
  {
    assert (rows + [Row(map[], Undefined)])[..|rows|] == rows;
  }

  /**
   * Entries are conserved: those free, those holding a rule at some depth, and those abandoned by pops always add up to
   * the size of the pool. So every `pop_state` over a non-empty table makes the pool smaller for good.
   */
  lemma {:induction false} EntriesConserved(t: Table, ops: seq<Op>)
    requires t.Valid()
    ensures
      var t' := ApplyAll(t, ops);
      |t'.stale| + RuleCount(t'.rows) + Abandoned(t, ops) == |t.stale| + RuleCount(t.rows)
    decreases ops
  {
    if ops != [] {
      CountAfter(t, ops[0]);
      EntriesConserved(Apply(t, ops[0]), ops[1..]);
    }
  }

  /** After any run `set_register` fails exactly for a new register when all 100 entries hold rules or are abandoned. */
  lemma SetFailsOnlyWhenFull(t: Table, ops: seq<Op>, r: RegNum)
    requires t.rows == [Row(map[], Undefined)] && |t.stale| == MAX_REGISTERS
    ensures
      var t' := ApplyAll(t, ops);
      !t'.CanSet(r) <==> r !in t'.Top().rules && RuleCount(t'.rows) + Abandoned(t, ops) == MAX_REGISTERS
  {
    EntriesConserved(t, ops);
    assert RuleCount(t.rows[..0]) == 0;
  }
}

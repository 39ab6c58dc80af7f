/**
 * Call-frame instructions as DWARF 4 section 6.4.2 defines them, where DW_CFA_remember_state saves a copy of the
 * current row and DW_CFA_restore_state brings it back, and how far `eval_program` agrees with them.
 */
module CfaStandard {
  import opened Common
  import opened OpStreamClass
  import opened CfaTable
  import opened CfaProgram

  /** The saved rows, and last the current one. */
  datatype Levels = Levels(pos: nat, location: nat, rows: seq<Row>)

  datatype Standard = Going(levels: Levels) | Ended(levels: Levels) | Error

  function WithTop(rows: seq<Row>, row: Row): seq<Row>
    requires rows != []
  {
    rows[|rows| - 1 := row]
  }

  function Define(l: Levels, cfa: CfaRule): Standard
    requires l.rows != []
  {
    Going(l.(rows := WithTop(l.rows, l.rows[|l.rows| - 1].(cfa := cfa))))
  }

  function Assign(l: Levels, rules: Rules): Standard
    requires l.rows != []
  {
    Going(l.(rows := WithTop(l.rows, l.rows[|l.rows| - 1].(rules := rules))))
  }

  function ExecuteStandard(env: Env, initial: Rules, instr: Instr, l: Levels): (s: Standard)
    requires env.Valid() && l.rows != []
    ensures !s.Ended? && (s.Going? ==> s.levels.rows != [])
  {
    var top := l.rows[|l.rows| - 1];
    match instr
    case Nop => Going(l)
    case SetLocation(location) => Going(l.(location := location))
    case AdvanceLocation(delta) => Going(l.(location := (l.location + delta * env.codeAlignment) % env.wordModulus))
    case DefineCfa(cfa) => Define(l, cfa)
    case DefineCfaRegister(r) => (
      match top.cfa
      case RegisterOffset(_, offset) => Define(l, RegisterOffset(r, offset))
      case RegisterOffsetSigned(_, offset) => Define(l, RegisterOffsetSigned(r, offset))
      case _ => Error)
    case DefineCfaOffset(offset) =>
      if IsRegisterBased(top.cfa) then Define(l, RegisterOffset(top.cfa.regnum, offset)) else Error
    case DefineCfaOffsetSigned(offset) =>
      if IsRegisterBased(top.cfa) then Define(l, RegisterOffsetSigned(top.cfa.regnum, offset)) else Error
    case SetRule(r, rule) => Assign(l, top.rules[r := rule])
    case UndefineRegister(r) => Assign(l, top.rules - {r})
    case Restore(r) => Assign(l, if r in initial then top.rules[r := initial[r]] else top.rules - {r})
    case RestoreExtended(r) => Assign(l, if r in initial then top.rules[r := initial[r]] else top.rules - {r})
    case RememberState => Going(l.(rows := l.rows + [top]))
    case RestoreState => if |l.rows| > 1 then Going(l.(rows := l.rows[..|l.rows| - 1])) else Error
  }

  function StepStandard(env: Env, initial: Rules, bytes: seq<uint8>, l: Levels): (s: Standard)
    requires env.Valid() && l.rows != []
    ensures s.Going? ==> s.levels.rows != []
  {
    if (env.pc != 0 && l.location > env.pc) || l.pos >= |bytes| then Ended(l)
    else match Decode(env, bytes, l.pos)
      case Malformed(_, _) => Error
      case Decoded(instr, next) => ExecuteStandard(env, initial, instr, l.(pos := next))
  }

  function RunStandard(env: Env, initial: Rules, bytes: seq<uint8>, l: Levels, n: nat): (s: Standard)
    requires env.Valid() && l.rows != []
    ensures s.Going? ==> s.levels.rows != []
  {
    if n == 0 then Going(l)
    else match RunStandard(env, initial, bytes, l, n - 1)
      case Going(k) => StepStandard(env, initial, bytes, k)
      case stopped => stopped
  }

  /**
   * The tables from depth `base` on against the standard's rows: the row at `base` is the same, and above it, where the
   * source starts from an empty table instead of a copy, the CFA rule is the same or not set yet.
   */
  ghost predicate Matches(tables: seq<Row>, base: nat, rows: seq<Row>) {
    && |tables| == base + |rows|
    && rows != []
    && tables[base] == rows[0]
    && forall i :: 0 < i < |rows| ==> tables[base + i].cfa == Undefined || tables[base + i].cfa == rows[i].cfa
  }

  ghost predicate MatchesConfig(c: Config, base: nat, l: Levels) {
    c.pos == l.pos && c.location == l.location && Matches(c.table.rows, base, l.rows)
  }

  /** At depth `base` this instruction means the same to both; above it any instruction may be executed. */
  predicate Tame(initial: Rules, instr: Instr, t: Table, base: nat)
    requires t.Valid()
  {
    |t.rows| == base + 1 ==>
      && instr != RestoreState
      && (instr.RestoreExtended? ==> RestoresRow(initial, instr.regnum, t.Top().rules))
  }

  /** The rule on entry is brought back, or nothing is removed, or register 0 is the one to remove. */
  predicate RestoresRow(initial: Rules, r: RegNum, rules: Rules) {
    r in initial || r == 0 || (r !in rules && 0 !in rules)
  }

  lemma MatchesTop(tables: seq<Row>, base: nat, rows: seq<Row>, row: Row, row': Row)
    requires Matches(tables, base, rows)
    requires |rows| == 1 ==> row == row'
    requires row.cfa == Undefined || row.cfa == row'.cfa
    ensures Matches(WithTop(tables, row), base, WithTop(rows, row'))
  {
  }

  lemma MatchingTops(tables: seq<Row>, base: nat, rows: seq<Row>)
    requires Matches(tables, base, rows)
    ensures rows != [] && |tables| == base + |rows|
    ensures |rows| == 1 ==> tables[|tables| - 1] == rows[0]
    ensures tables[|tables| - 1].cfa == Undefined || tables[|tables| - 1].cfa == rows[|rows| - 1].cfa
  {
  }

  lemma SetterMatches(env: Env, initial: Rules, instr: Instr, c: Config, base: nat, l: Levels)
    requires env.Valid() && c.table.Valid() && MatchesConfig(c, base, l) && Tame(initial, instr, c.table, base)
    requires !instr.RememberState? && !instr.RestoreState? && Execute(env, initial, instr, c).Running?
    ensures l.rows != []
    ensures
      var s := ExecuteStandard(env, initial, instr, l);
      s.Going? && MatchesConfig(Execute(env, initial, instr, c).c, base, s.levels)
  {
    hide Matches;
    MatchingTops(c.table.rows, base, l.rows);
    var o := Execute(env, initial, instr, c);
    var s := ExecuteStandard(env, initial, instr, l);
    SetterKeepsLower(env, initial, instr, c);
    assert s.Going?;
    assert s.levels.rows == WithTop(l.rows, s.levels.rows[|l.rows| - 1]);
    MatchesTop(c.table.rows, base, l.rows, o.c.table.Top(), s.levels.rows[|l.rows| - 1]);
  }

  lemma SetterKeepsLower(env: Env, initial: Rules, instr: Instr, c: Config)
    requires env.Valid() && c.table.Valid()
    requires !instr.RememberState? && !instr.RestoreState? && Execute(env, initial, instr, c).Running?
    ensures
      var t := Execute(env, initial, instr, c).c.table;
      t.Valid() && t.rows == WithTop(c.table.rows, t.Top())
  {
  }

  lemma StackMatches(env: Env, initial: Rules, instr: Instr, c: Config, base: nat, l: Levels)
    requires env.Valid() && c.table.Valid() && MatchesConfig(c, base, l) && Tame(initial, instr, c.table, base)
    requires (instr.RememberState? || instr.RestoreState?) && Execute(env, initial, instr, c).Running?
    ensures l.rows != []
    ensures
      var s := ExecuteStandard(env, initial, instr, l);
      s.Going? && MatchesConfig(Execute(env, initial, instr, c).c, base, s.levels)
  {
  }

  /** The instruction a configuration is about to execute, if any, is tame and leaves the depth above `base`. */
  predicate TameStep(env: Env, initial: Rules, bytes: seq<uint8>, c: Config, base: nat)
    requires env.Valid() && c.table.Valid()
  {
    c.pos < |bytes| && Decode(env, bytes, c.pos).Decoded? ==>
      Tame(initial, Decode(env, bytes, c.pos).instr, c.table, base)
  }

  /**
   * As long as the source's interpreter goes on, the standard's goes on with it, at the same position and location.
   * So whenever every remembered state has been restored, both have the same row: the empty tables that the source
   * works on in between leave no trace.
   */
  lemma {:induction false} AgreesWithStandard(env: Env, initial: Rules, bytes: seq<uint8>, c: Config, n: nat)
    requires env.Valid() && c.table.Valid()
    requires Run(env, initial, bytes, c, n).Running?
    requires forall m :: 0 <= m < n ==>
               Run(env, initial, bytes, c, m).Running? &&
               TameStep(env, initial, bytes, Run(env, initial, bytes, c, m).c, |c.table.rows| - 1)
    ensures
      var base := |c.table.rows| - 1;
      var d := Run(env, initial, bytes, c, n).c;
      var s := RunStandard(env, initial, bytes, Levels(c.pos, c.location, [c.table.Top()]), n);
      && s.Going? && MatchesConfig(d, base, s.levels)
      && (|d.table.rows| == base + 1 ==> s.levels.rows == [d.table.Top()])
  {
    hide Decode, Execute, ExecuteStandard, Tame;
    var base := |c.table.rows| - 1;
    if n > 0 {
      AgreesWithStandard(env, initial, bytes, c, n - 1);
      var b := Run(env, initial, bytes, c, n - 1).c;
      var l := RunStandard(env, initial, bytes, Levels(c.pos, c.location, [c.table.Top()]), n - 1).levels;
      StepMatches(env, initial, bytes, b, base, l);
    }
  }

  lemma StepMatches(env: Env, initial: Rules, bytes: seq<uint8>, c: Config, base: nat, l: Levels)
    requires env.Valid() && c.table.Valid() && MatchesConfig(c, base, l) && TameStep(env, initial, bytes, c, base)
    requires Step(env, initial, bytes, c).Running?
    ensures l.rows != []
    ensures
      var s := StepStandard(env, initial, bytes, l);
      s.Going? && MatchesConfig(Step(env, initial, bytes, c).c, base, s.levels)
  {
    hide Decode, Execute, ExecuteStandard, Tame, Matches;
    MatchingTops(c.table.rows, base, l.rows);
    var d := Decode(env, bytes, c.pos);
    var instr, c', l' := d.instr, c.(pos := d.next), l.(pos := d.next);
    if instr.RememberState? || instr.RestoreState? {
      StackMatches(env, initial, instr, c', base, l');
    } else {
      SetterMatches(env, initial, instr, c', base, l');
    }
  }

  /** The whole row after DW_CFA_restore_extended. */
  lemma RestoreExtendedAgreesIff(env: Env, initial: Rules, r: RegNum, c: Config)
    requires env.Valid() && c.table.Valid() && Execute(env, initial, RestoreExtended(r), c).Running?
    ensures
      var row := c.table.Top();
      var t := Execute(env, initial, RestoreExtended(r), c).c.table;
      && t.Valid()
      && (t.Top() == row.(rules := if r in initial then row.rules[r := initial[r]] else row.rules - {r}) <==>
          r in initial || r == 0 || (r !in row.rules && 0 !in row.rules))
  {
  }

  /**
   * The exact condition for one instruction: what the source executes without an error leaves the standard's row
   * exactly when the instruction is tame. DW_CFA_restore_extended is not where the register has no rule on entry, and
   * either it or register 0 has one now: the source then removes the rule of register 0.
   */
  lemma InstructionAgreesIff(env: Env, initial: Rules, instr: Instr, c: Config)
    requires env.Valid() && c.table.Valid() && !instr.RememberState? && Execute(env, initial, instr, c).Running?
    ensures
      var c' := Execute(env, initial, instr, c).c;
      var s := ExecuteStandard(env, initial, instr, Levels(c.pos, c.location, [c.table.Top()]));
      && c'.table.Valid()
      && (s == Going(Levels(c'.pos, c'.location, [c'.table.Top()])) <==> Tame(initial, instr, c.table, |c.table.rows| - 1))
  {
    hide Matches;
    var base, l := |c.table.rows| - 1, Levels(c.pos, c.location, [c.table.Top()]);
    if Tame(initial, instr, c.table, base) {
      MatchesOneRow(c.table.rows);
      SetterMatches(env, initial, instr, c, base, l);
      SetterKeepsLower(env, initial, instr, c);
      MatchingTops(Execute(env, initial, instr, c).c.table.rows, base, ExecuteStandard(env, initial, instr, l).levels.rows);
    } else if instr.RestoreExtended? {
      RestoreExtendedAgreesIff(env, initial, instr.regnum, c);
      assert ExecuteStandard(env, initial, instr, l).levels.rows[0] ==
             c.table.Top().(rules := c.table.Top().rules - {instr.regnum});
    }
  }

  lemma MatchesOneRow(rows: seq<Row>)
    requires rows != []
    ensures Matches(rows, |rows| - 1, [rows[|rows| - 1]])
  {
  }

  /** The instruction gives `r` a rule. */
  predicate Sets(initial: Rules, instr: Instr, r: RegNum) {
    || (instr.SetRule? && instr.regnum == r)
    || ((instr.Restore? || instr.RestoreExtended?) && instr.regnum == r && r in initial)
  }

  /** The instruction takes the rule of `r` away, which for DW_CFA_restore_extended is the one of register 0. */
  predicate Removes(initial: Rules, instr: Instr, r: RegNum) {
    || (instr.UndefineRegister? && instr.regnum == r)
    || (instr.Restore? && instr.regnum == r && r !in initial)
    || (instr.RestoreExtended? && instr.regnum !in initial && r == 0)
  }

  /**
   * Where the source does not go on, and the standard does or does not: it refuses what the standard has no meaning
   * for, it runs out of entries or of saved states, or it removes a rule whose number a free entry still carries.
   */
  lemma FailsIff(env: Env, initial: Rules, instr: Instr, c: Config)
    requires env.Valid() && c.table.Valid()
    ensures
      var o, t := Execute(env, initial, instr, c), c.table;
      && (o == Failed(EINVAL, t) <==> ExecuteStandard(env, initial, instr, Levels(c.pos, c.location, t.rows)) == Error)
      && (o == Failed(ENOMEM, t) <==>
            || (instr == RememberState && |t.rows| == MAX_STATES)
            || (t.stale == [] && exists r :: Sets(initial, instr, r) && r !in t.Top().rules))
      && (o == Diverged <==> exists r :: Removes(initial, instr, r) && r in t.Top().rules && r in t.stale)
      && (o.Running? || o == Failed(EINVAL, t) || o == Failed(ENOMEM, t) || o == Diverged)
  {
    if instr.SetRule? || instr.Restore? || instr.RestoreExtended? || instr.UndefineRegister? {
      assert Sets(initial, instr, instr.regnum) || Removes(initial, instr, instr.regnum) || Removes(initial, instr, 0);
    }
  }

  /**
   * In between the two differ: right after DW_CFA_remember_state the source has no rules, the standard has all of
   * them.
   */
  lemma RememberedStateDiffers(env: Env, initial: Rules, c: Config)
    requires env.Valid() && c.table.Valid() && c.table.CanPush()
    ensures
      var top := c.table.Top();
      var o := Execute(env, initial, RememberState, c);
      var s := ExecuteStandard(env, initial, RememberState, Levels(c.pos, c.location, [top]));
      && o.Running? && o.c.table.Valid() && s.Going?
      && (o.c.table.Top() == s.levels.rows[|s.levels.rows| - 1] <==> top == Row(map[], Undefined))
  {
  }
}

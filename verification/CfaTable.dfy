/**
 * The abstract view of `dwarf_cfa_state`: a stack of saved rows, each a finite map from register number to rule plus a
 * CFA rule. The register numbers still stored in the free pool entries, in free-list order, are part of the view,
 * because the removal loop reads them.
 */
module CfaTable {
  import opened Common

  const MAX_REGISTERS := 100
  const MAX_STATES := 6
  const BUCKET_COUNT := 14
  const INVALID := UINT8_MAX

  type RegNum = uint32

  datatype RuleKind = Offset | ValOffset | Register | Expression | ValExpression | SameValue

  datatype RegRule = RegRule(kind: RuleKind, value: nat)

  datatype CfaRule =
    | Undefined
    | RegisterOffset(regnum: RegNum, offset: nat)
    | RegisterOffsetSigned(regnum: RegNum, soffset: int)
    | CfaExpression(address: nat, length: nat)

  type Rules = map<RegNum, RegRule>

  function WithRule(rules: Rules, r: RegNum, rule: RegRule): Rules {
    rules[r := rule]
  }

  function WithoutRule(rules: Rules, r: RegNum): Rules {
    rules - {r}
  }

  datatype Row = Row(rules: Rules, cfa: CfaRule)

  datatype Table = Table(rows: seq<Row>, stale: seq<RegNum>) {
    predicate Valid() {
      1 <= |rows| <= MAX_STATES
    }

    function Top(): Row
      requires Valid()
    {
      rows[|rows| - 1]
    }

    function WithTop(row: Row): Table
      requires Valid()
    {
      this.(rows := rows[|rows| - 1 := row])
    }

    function WithRules(rules: Rules): Table
      requires Valid()
    {
      WithTop(Top().(rules := rules))
    }

    /** `set_register`: fails only when a new entry is needed and the free list is empty. */
    predicate CanSet(r: RegNum)
      requires Valid()
    {
      r in Top().rules || stale != []
    }

    function SetRegister(r: RegNum, rule: RegRule): Table
      requires Valid()
    {
      if r in Top().rules then WithRules(WithRule(Top().rules, r, rule))
      else if stale == [] then this
      else WithRules(WithRule(Top().rules, r, rule)).(stale := stale[1..])
    }

    /** The removal loop of the source does not end exactly when this holds; see module CfaRemoval. */
    predicate RemovalDiverges(r: RegNum)
      requires Valid()
    {
      r in Top().rules && r in stale
    }

    function RemoveRegister(r: RegNum): Table
      requires Valid()
    {
      if r in Top().rules then WithRules(WithoutRule(Top().rules, r)).(stale := [r] + stale)
      else this
    }

    function SetCfa(cfa: CfaRule): Table
      requires Valid()
    {
      WithTop(Top().(cfa := cfa))
    }

    predicate CanPush() {
      |rows| < MAX_STATES
    }

    function PushState(): Table {
      if CanPush() then this.(rows := rows + [Row(map[], Undefined)]) else this
    }

    predicate CanPop() {
      1 < |rows|
    }

    function PopState(): Table {
      if CanPop() then this.(rows := rows[..|rows| - 1]) else this
    }
  }
}

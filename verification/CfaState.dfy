/**
 * `dwarf_cfa_state`: the shared-pool, chained tables updated in place, proved to behave as the stack of maps of module
 * CfaTable.
 */
module CfaStateClass {
  import opened Common
  import opened CfaTable
  import opened CfaPool
  import opened CfaRemoval
  import opened CfaEnumeration

  /** The saved rows as the arrays of the class hold them. */
  ghost predicate RowsMatch(rows: seq<Row>, rules: seq<Rules>, counts: seq<uint8>, cfas: seq<CfaRule>) {
    && |rows| == |rules| <= |counts| == |cfas|
    && forall d :: 0 <= d < |rows| ==> rows[d] == Row(rules[d], cfas[d]) && counts[d] == |rules[d]|
  }

  lemma RowsMatchTop(t: Table, rules: seq<Rules>, counts: seq<uint8>, cfas: seq<CfaRule>)
    requires t.Valid() && RowsMatch(t.rows, rules, counts, cfas)
    ensures
      var d := |t.rows| - 1;
      |rules| == d + 1 <= |counts| == |cfas| && t.Top() == Row(rules[d], cfas[d]) && counts[d] == |rules[d]|
  {
  }

  lemma RowsMatchAfterUpdate(t: Table, rules: seq<Rules>, counts: seq<uint8>, cfas: seq<CfaRule>, top: Rules,
      count: uint8)
    requires t.Valid() && RowsMatch(t.rows, rules, counts, cfas) && count == |top|
    ensures
      var d := |t.rows| - 1;
      |rules| == d + 1 <= |counts| && RowsMatch(t.WithRules(top).rows, rules[d := top], counts[d := count], cfas)
  {
  }

  lemma RowsMatchAfterRemoval(t: Table, rules: seq<Rules>, counts: seq<uint8>, cfas: seq<CfaRule>, r: RegNum,
      count: uint8)
    requires t.Valid() && RowsMatch(t.rows, rules, counts, cfas)
    requires
      var before: int := counts[|t.rows| - 1];
      count == if r in t.Top().rules then (before - 1) % 0x100 else before
    ensures
      var d := |t.rows| - 1;
      var rules' := if r in rules[d] then rules[d := WithoutRule(rules[d], r)] else rules;
      |rules| == d + 1 <= |counts| && RowsMatch(t.RemoveRegister(r).rows, rules', counts[d := count], cfas)
  {
    hide RowsMatch;
    RowsMatchTop(t, rules, counts, cfas);
    var d := |t.rows| - 1;
    if r in rules[d] {
      assert |WithoutRule(rules[d], r)| == |rules[d]| - 1;
      RowsMatchAfterUpdate(t, rules, counts, cfas, WithoutRule(rules[d], r), count);
    } else {
      assert counts[d := count] == counts;
    }
  }

  class CfaState {
    /** The abstract value: what the pool and the bucket heads below represent. */
    ghost var table: Table

    const entries: array<Entry>
    const tableStack: array<uint8>
    const registerCount: array<uint8>
    const cfaValue: array<CfaRule>
    var tableDepth: nat
    var freeList: uint8

    ghost var chains: seq<seq<nat>>
    ghost var owner: seq<nat>
    ghost var rules: seq<Rules>

    ghost const Repr: set<object> := {this, entries, tableStack, registerCount, cfaValue}

    ghost predicate Shaped()
      reads this
    {
      && entries.Length == MAX_REGISTERS
      && tableStack.Length == TABLE_SLOTS
      && registerCount.Length == cfaValue.Length == MAX_STATES
      && tableStack != registerCount
      && tableDepth < MAX_STATES
    }

    ghost function Pooled(): Pool
      reads this, entries, tableStack
    {
      Pool(entries[..], tableStack[..] + [freeList], chains, owner)
    }

    ghost predicate Valid()
      reads Repr
      ensures Valid() ==> table.Valid()
    {
      && Shaped()
      && |table.rows| == |rules| == tableDepth + 1
      && RowsMatch(table.rows, rules, registerCount[..], cfaValue[..])
      && Pooled().Ok(rules)
      && table.stale == Pooled().Stale()
    }

    /** The registers with a rule in the current table, in bucket and chain order. */
    ghost function Enumeration(): seq<RegNum>
      requires Valid()
      reads Repr
    {
      RuleRegisters(Pooled(), rules, tableDepth)
    }

    /** The enumeration lists every register with a rule once, and nothing else. */
    lemma EnumerationListsRules()
      requires Valid()
      ensures Distinct(Enumeration()) && Elements(Enumeration()) == table.Top().rules.Keys
      ensures |Enumeration()| == |table.Top().rules| <= MAX_REGISTERS && BucketOrder(Enumeration())
    {
      hide Pool.Ok, Pool.Stale, Distinct, Elements, RowsMatch, RuleRegisters;
      RowsMatchTop(table, rules, registerCount[..], cfaValue[..]);
    }

    /** An empty table at depth 0. Entries start with whatever register numbers the memory held. */
    constructor ()
      ensures Valid() && fresh(Repr)
      ensures table.rows == [Row(map[], Undefined)] && |table.stale| == MAX_REGISTERS
    {
      hide Valid;
      entries := new Entry[MAX_REGISTERS];
      tableStack := new uint8[TABLE_SLOTS];
      registerCount := new uint8[MAX_STATES];
      cfaValue := new CfaRule[MAX_STATES];
      new;
      Initialize();
    }

    method Initialize()
      requires entries.Length == MAX_REGISTERS && tableStack.Length == TABLE_SLOTS
      requires registerCount.Length == cfaValue.Length == MAX_STATES && tableStack != registerCount
      modifies Repr
      ensures Valid()
      ensures table.rows == [Row(map[], Undefined)] && |table.stale| == MAX_REGISTERS
    {
      hide Pool.Ok, Pool.Stale, InitialChains;
      ThreadFreeList();
      tableDepth := 0;
      freeList := 0;
      registerCount[0] := 0;
      ClearTable(0);
      cfaValue[0] := Undefined;
      chains, owner, rules := InitialChains(), seq(MAX_REGISTERS, i => FREE), [map[]];
      InitialOk(entries[..], tableStack[..] + [freeList]);
      table := Table([Row(map[], Undefined)], Pooled().Stale());
    }

    /** Initializes the free list: each entry is linked to the next one. */
    method ThreadFreeList()
      requires entries.Length == MAX_REGISTERS
      modifies entries
      ensures forall i :: 0 <= i < MAX_REGISTERS ==>
                entries[i] == old(entries[i]).(next := if i + 1 < MAX_REGISTERS then i + 1 else INVALID)
    {
      var i := 0;
      while i < MAX_REGISTERS
        invariant 0 <= i <= MAX_REGISTERS
        invariant forall j :: 0 <= j < MAX_REGISTERS ==>
          entries[j] == if j < i then old(entries[j]).(next := j + 1) else old(entries[j])
      {
        entries[i] := entries[i].(next := i + 1);
        i := i + 1;
      }
      entries[MAX_REGISTERS - 1] := entries[MAX_REGISTERS - 1].(next := INVALID);
    }

    /** `memset` of one row of the table stack. */
    method ClearTable(depth: nat)
      requires depth < MAX_STATES && tableStack.Length == TABLE_SLOTS
      modifies tableStack
      ensures forall s :: 0 <= s < TABLE_SLOTS ==>
                tableStack[s] == if BUCKET_COUNT * depth <= s < BUCKET_COUNT * (depth + 1) then INVALID else old(tableStack[s])
    {
      var b := 0;
      while b < BUCKET_COUNT
        invariant 0 <= b <= BUCKET_COUNT
        invariant forall s :: 0 <= s < TABLE_SLOTS ==>
                    tableStack[s] == if BUCKET_COUNT * depth <= s < BUCKET_COUNT * depth + b then INVALID else old(tableStack[s])
      {
        tableStack[BUCKET_COUNT * depth + b] := INVALID;
        b := b + 1;
      }
    }

    method PushState() returns (ok: bool)
      requires Valid()
      modifies Repr
      ensures Valid()
      ensures ok == old(table.CanPush()) && table == old(table.PushState())
    {
      hide Pool.Ok, Pool.Stale;
      if tableDepth + 1 == MAX_STATES {
        return false;
      }
      ghost var p := Pooled();
      tableDepth := tableDepth + 1;
      registerCount[tableDepth] := 0;
      cfaValue[tableDepth] := Undefined;
      ClearTable(tableDepth);
      PushKeepsOk(p, rules, tableStack[..] + [freeList]);
      rules := rules + [map[]];
      assert Pooled() == p.(heads := tableStack[..] + [freeList]);
      table := table.PushState();
      return true;
    }

    method PopState() returns (ok: bool)
      requires Valid()
      modifies Repr
      ensures Valid()
      ensures ok == old(table.CanPop()) && table == old(table.PopState())
    {
      hide Pool.Ok, Pool.Stale, Popped;
      if tableDepth == 0 {
        return false;
      }
      ghost var p := Pooled();
      PopKeepsOk(p, rules);
      tableDepth := tableDepth - 1;
      chains, owner := Popped(p, tableDepth + 1).chains, Popped(p, tableDepth + 1).owner;
      rules := rules[..|rules| - 1];
      assert Pooled() == Popped(p, tableDepth + 1);
      table := table.PopState();
      return true;
    }
  
    /** The walk along a bucket: to the entry of a register, or to the last entry. */
    method FindEntry(slot: nat, regnum: RegNum) returns (found: bool, parent: nat, ghost k: nat)
      requires Valid() && slot < BUCKET_COUNT * |rules|
      ensures slot < |chains| && k <= |chains[slot]| && forall j :: 0 <= j < |chains[slot]| ==>
        chains[slot][j] < entries.Length
      ensures forall j :: 0 <= j < k ==> entries[chains[slot][j]].regnum != regnum
      ensures
        var c := chains[slot];
        if found then k < |c| && parent == c[k] && entries[c[k]].regnum == regnum
        else k == |c| && parent == if c == [] then INVALID else c[|c| - 1]
    {
      hide Pool.Ok, Pool.Stale;
      ghost var p := Pooled();
      ChainHead(p, rules, slot);
      ghost var c := chains[slot];
      k := 0;
      parent := INVALID;
      found := false;
      var parentIdx := tableStack[slot];
      while parentIdx != INVALID
        invariant k <= |c|
        invariant parentIdx == if k < |c| then c[k] else INVALID
        invariant parent == if k == 0 then INVALID else c[k - 1]
        invariant forall j :: 0 <= j < k ==> entries[c[j]].regnum != regnum
        invariant !found
        decreases |c| - k
      {
        ChainNext(p, rules, slot, k);
        parent := parentIdx;
        if entries[parent].regnum == regnum {
          found := true;
          break;
        }
        k := k + 1;
        if entries[parent].next == INVALID {
          break;
        }
        parentIdx := entries[parent].next;
      }
    }

    /** Add or overwrite the rule of a register; fails only when a new entry is needed and the free list is empty. */
    method SetRegister(regnum: RegNum, kind: RuleKind, value: nat) returns (ok: bool)
      requires Valid()
      modifies Repr
      ensures Valid()
      ensures ok == old(table.CanSet(regnum)) && table == old(table.SetRegister(regnum, RegRule(kind, value)))
      ensures !ok ==> table == old(table)
      ensures Enumeration() ==
        if ok && regnum !in old(table.Top().rules) then Inserted(old(Enumeration()), regnum) else old(Enumeration())
    {
      hide Pool.Ok, Pool.Stale, Pool.Appended, Inserted, RuleRegisters, RowsMatch;
      RowsMatchTop(table, rules, registerCount[..], cfaValue[..]);
      var slot := BUCKET_COUNT * tableDepth + regnum % BUCKET_COUNT;
      ghost var p, rule := Pooled(), RegRule(kind, value);
      ghost var k;
      var found, parent;
      found, parent, k := FindEntry(slot, regnum);
      if found {
        OverwriteEntry(slot, k, parent, kind, value);
        return true;
      }
      NotInChain(p, rules, slot, regnum);
      FreeHead(p, rules);
      if freeList == INVALID {
        return false;
      }
      AppendEntry(slot, parent, regnum, kind, value);
      return true;
    }

    /** Re-uses the entry that a register already has. */
    method OverwriteEntry(slot: nat, ghost k: nat, entry: nat, kind: RuleKind, value: nat)
      requires Valid() && slot / BUCKET_COUNT == tableDepth && slot < |chains|
      requires k < |chains[slot]| && chains[slot][k] == entry < MAX_REGISTERS
      modifies Repr
      ensures Valid()
      ensures
        var r := old(entries[entry].regnum);
        r in old(table.Top().rules) && table == old(table.SetRegister(r, RegRule(kind, value)))
      ensures Enumeration() == old(Enumeration())
    {
      hide Pool.Ok, Pool.Stale, RuleRegisters;
      ghost var p, r, rule := Pooled(), entries[entry].regnum, RegRule(kind, value);
      EnumerationRewritten(p, rules, slot, k, r, rule);
      RewriteKeepsOk(p, rules, slot, k, r, rule);
      entries[entry] := entries[entry].(kind := kind, value := value);
      rules := rules[tableDepth := WithRule(rules[tableDepth], r, rule)];
      table := table.SetRegister(r, rule);
      assert Pooled() == p.Rewritten(entry, rule);
    }

    /** Moves the first free entry to the end of a bucket chain. */
    method AppendEntry(slot: nat, parent: nat, regnum: RegNum, kind: RuleKind, value: nat)
      requires Valid() && CanAppend(Pooled(), rules, slot, regnum) && slot / BUCKET_COUNT == tableDepth
      requires regnum !in table.Top().rules && freeList != INVALID
      requires parent == if chains[slot] == [] then INVALID else chains[slot][|chains[slot]| - 1]
      modifies Repr
      ensures Valid()
      ensures table == old(table.SetRegister(regnum, RegRule(kind, value)))
      ensures Enumeration() == Inserted(old(Enumeration()), regnum)
    {
      hide Pool.Ok, Pool.Stale, CanAppend, RowsMatch, Pool.Appended, RuleRegisters, Inserted;
      ghost var p, rule := Pooled(), RegRule(kind, value);
      EnumerationAppended(p, rules, slot, regnum, rule);
      FreeHead(p, rules);
      AppendKeepsOk(p, rules, slot, regnum, rule);
      RuleCountBounded(p, rules, tableDepth);
      RowsMatchTop(table, rules, registerCount[..], cfaValue[..]);
      RowsMatchAfterUpdate(table, rules, registerCount[..], cfaValue[..],
                           WithRule(rules[tableDepth], regnum, rule), registerCount[tableDepth] + 1);
      LinkFreeEntry(slot, parent, regnum, kind, value);
      registerCount[tableDepth] := registerCount[tableDepth] + 1;
      assert registerCount[..] == old(registerCount[..])[tableDepth := registerCount[tableDepth]];
      rules := rules[tableDepth := WithRule(rules[tableDepth], regnum, rule)];
      table := table.SetRegister(regnum, rule);
      FreeHead(Pooled(), rules);
    }

    method LinkFreeEntry(slot: nat, parent: nat, regnum: RegNum, kind: RuleKind, value: nat)
      requires Shaped() && Pooled().Ok(rules) && CanAppend(Pooled(), rules, slot, regnum) && freeList != INVALID
      requires parent == if chains[slot] == [] then INVALID else chains[slot][|chains[slot]| - 1]
      modifies entries, tableStack, this`freeList, this`chains, this`owner
      ensures Pooled() == old(Pooled().Appended(slot, regnum, RegRule(kind, value)))
    {
      hide Pool.Ok, CanAppend;
      ghost var p := Pooled();
      CanAppendBounds(p, rules, slot, regnum);
      var entryIdx := freeList;
      freeList := entries[entryIdx].next;
      entries[entryIdx] := Entry(value, regnum, kind, INVALID);
      if parent == INVALID {
        tableStack[slot] := entryIdx;
      } else {
        entries[parent] := entries[parent].(next := entryIdx);
      }
      ghost var q := p.Appended(slot, regnum, RegRule(kind, value));
      chains, owner := q.chains, q.owner;
    }

    ghost function WalkState(slot: nat, entry: nat, idx: uint8): Walk
      requires Shaped() && slot < TABLE_SLOTS
      reads this, entries, tableStack, registerCount
    {
      Walk(entries[..], tableStack[slot], freeList, registerCount[tableDepth], entry, idx)
    }

    /** The body of the loop of `remove_register`; like the source it does not leave the loop at the match. */
    method WalkOn(slot: nat, regnum: RegNum, prev: nat, entry: uint8) returns (entryIdx: uint8)
      requires Shaped() && slot / BUCKET_COUNT == tableDepth && entry < MAX_REGISTERS
      modifies entries, tableStack, registerCount, this`freeList
      ensures WalkState(slot, entry, entryIdx) == Step(old(WalkState(slot, prev, entry)), regnum)
      ensures tableStack[..] == old(tableStack[..])[slot := tableStack[slot]]
      ensures registerCount[..] == old(registerCount[..])[tableDepth := registerCount[tableDepth]]
    {
      if entries[entry].regnum != regnum {
        return entries[entry].next;
      }
      if prev < MAX_REGISTERS {
        entries[prev] := entries[prev].(next := entries[entry].next);
      } else {
        tableStack[slot] := entries[entry].next;
      }
      entries[entry] := entries[entry].(next := freeList);
      freeList := entry;
      var count: int := registerCount[tableDepth];
      registerCount[tableDepth] := (count - 1) % 0x100;
      return entries[entry].next;
    }

    /**
     * The loop of `remove_register`. `steps` is the number of iterations it takes, where module CfaRemoval finds one.
     */
    method WalkAndRemove(slot: nat, regnum: RegNum, ghost steps: nat)
      requires Shaped() && slot / BUCKET_COUNT == tableDepth
      requires
        var w := Start(entries[..], tableStack[slot], freeList, registerCount[tableDepth]);
        Run(w, regnum, steps).idx == INVALID && forall m :: 0 <= m < steps ==> !Ended(Run(w, regnum, m))
      modifies entries, tableStack, registerCount, this`freeList
      ensures
        var w := old(Start(entries[..], tableStack[slot], freeList, registerCount[tableDepth]));
        var last := Run(w, regnum, steps);
        && entries[..] == last.es
        && tableStack[..] == old(tableStack[..])[slot := last.head]
        && freeList == last.free
        && registerCount[..] == old(registerCount[..])[tableDepth := last.count]
    {
      hide Step;
      ghost var w := Start(entries[..], tableStack[slot], freeList, registerCount[tableDepth]);
      ghost var n := 0;
      var entry: nat := INVALID;
      var entryIdx: uint8 := tableStack[slot];
      while entryIdx != INVALID
        invariant n <= steps && Run(w, regnum, n) == WalkState(slot, entry, entryIdx)
        invariant tableStack[..] == old(tableStack[..])[slot := tableStack[slot]]
        invariant registerCount[..] == old(registerCount[..])[tableDepth := registerCount[tableDepth]]
        decreases steps - n
      {
        assert n != steps && entryIdx < MAX_REGISTERS;
        n := n + 1;
        var prev := entry;
        entry := entryIdx;
        entryIdx := WalkOn(slot, regnum, prev, entryIdx);
      }
      assert n == steps;
    }

    /** The loop of `remove_register`, where it ends. */
    method RemoveWhereItEnds(regnum: RegNum)
      requires Valid() && !table.RemovalDiverges(regnum)
      modifies Repr
      ensures Valid()
      ensures table == old(table.RemoveRegister(regnum))
    {
      hide Pool.Ok, Pool.Stale, RowsMatch, Run, Step;
      var slot := BUCKET_COUNT * tableDepth + regnum % BUCKET_COUNT;
      ghost var p, count := Pooled(), registerCount[tableDepth];
      FreeHead(p, rules);
      RowsMatchTop(table, rules, registerCount[..], cfaValue[..]);
      ghost var steps, q := WalkOutcome(p, rules, slot, regnum, count);
      WalkAndRemove(slot, regnum, steps);
      RowsMatchAfterRemoval(table, rules, old(registerCount[..]), cfaValue[..], regnum, registerCount[tableDepth]);
      rules := if regnum in rules[tableDepth] then rules[tableDepth := WithoutRule(rules[tableDepth], regnum)] else rules;
      table := table.RemoveRegister(regnum);
      chains, owner := q.chains, q.owner;
      assert Pooled() == q;
      FreeHead(q, rules);
    }

    /** Not in the source: whether the loop of `remove_register` would go on for ever. It stands for that case below. */
    method RemovalWouldDiverge(regnum: RegNum) returns (hangs: bool)
      requires Valid()
      ensures hangs == table.RemovalDiverges(regnum)
    {
      hide Pool.Ok;
      ghost var p := Pooled();
      FreeHead(p, rules);
      var present, _, _ := GetRegisterRule(regnum);
      if !present {
        return false;
      }
      ghost var f := chains[FREE];
      ghost var k := 0;
      var idx: uint8 := freeList;
      while idx != INVALID
        invariant k <= |f| && idx == if k < |f| then f[k] else INVALID
        invariant forall j :: 0 <= j < k ==> table.stale[j] != regnum
        decreases |f| - k
      {
        FreeNext(p, rules, k);
        if entries[idx].regnum == regnum {
          assert table.stale[k] == regnum;
          return true;
        }
        assert table.stale[k] != regnum;
        idx := entries[idx].next;
        k := k + 1;
      }
      return false;
    }

    /**
     * Remove the rule of a register. `ends` tells whether the call returns at all: the loop goes on for ever if the
     * register has a rule while a free entry still carries its number, which CfaRemoval proves to be the exact
     * condition.
     */
    method RemoveRegister(regnum: RegNum) returns (ends: bool)
      requires Valid()
      modifies Repr
      ensures Valid() && ends == !old(table).RemovalDiverges(regnum)
      ensures table == if ends then old(table.RemoveRegister(regnum)) else old(table)
    {
      hide CfaState.Valid;
      var hangs := RemovalWouldDiverge(regnum);
      if hangs {
        return false;
      }
      RemoveWhereItEnds(regnum);
      return true;
    }

    /** Fetch the rule of a register, if it has one. */
    method GetRegisterRule(regnum: RegNum) returns (found: bool, kind: RuleKind, value: nat)
      requires Valid()
      ensures found == (regnum in table.Top().rules)
      ensures found ==> table.Top().rules[regnum] == RegRule(kind, value)
    {
      hide Pool.Ok, Pool.Stale;
      kind, value := SameValue, 0;
      var slot := BUCKET_COUNT * tableDepth + regnum % BUCKET_COUNT;
      ghost var p := Pooled();
      ChainHead(p, rules, slot);
      ghost var c := chains[slot];
      ghost var k := 0;
      var entryIdx := tableStack[slot];
      while entryIdx != INVALID
        invariant k <= |c|
        invariant entryIdx == if k < |c| then c[k] else INVALID
        invariant forall j :: 0 <= j < k ==> entries[c[j]].regnum != regnum
        decreases |c| - k
      {
        ChainNext(p, rules, slot, k);
        if entries[entryIdx].regnum != regnum {
          k := k + 1;
          if entries[entryIdx].next == INVALID {
            break;
          }
          entryIdx := entries[entryIdx].next;
          continue;
        }
        FoundInChain(p, rules, slot, k, regnum);
        return true, entries[entryIdx].kind, entries[entryIdx].value;
      }
      NotInChain(p, rules, slot, regnum);
      return false, kind, value;
    }

    /** The number of register rules of the current table. */
    method GetRegisterCount() returns (count: uint8)
      requires Valid()
      ensures count == |table.Top().rules|
    {
      hide Pool.Ok, Pool.Stale;
      count := registerCount[tableDepth];
    }

    /** `set_cfa_register`, `set_cfa_register_signed` and `set_cfa_expression`: overwrite the CFA rule in place. */
    method SetCfa(cfa: CfaRule)
      requires Valid()
      modifies Repr
      ensures Valid()
      ensures table == old(table.SetCfa(cfa))
    {
      hide Pool.Ok, Pool.Stale;
      cfaValue[tableDepth] := cfa;
      table := table.SetCfa(cfa);
    }

    method GetCfaRule() returns (cfa: CfaRule)
      requires Valid()
      ensures cfa == table.Top().cfa
    {
      hide Pool.Ok, Pool.Stale;
      cfa := cfaValue[tableDepth];
    }
  }
}

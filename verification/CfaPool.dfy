/**
 * The shared entry pool behind `dwarf_cfa_state`, as values: the 100 entries, the 6 * 14 bucket heads and the free-list
 * head, together with the index chains they thread. Slot `14 * d + b` is bucket `b` of the table saved at depth `d`;
 * slot 84 is the free list. `owner` says for every entry which chain it is on, or that `pop_state` abandoned it.
 */
module CfaPool {
  import opened Common
  import opened CfaTable

  const TABLE_SLOTS := MAX_STATES * BUCKET_COUNT
  const FREE := TABLE_SLOTS
  const ABANDONED := TABLE_SLOTS + 1

  datatype Entry = Entry(value: nat, regnum: RegNum, kind: RuleKind, next: uint8) {
    function Rule(): RegRule {
      RegRule(kind, value)
    }
  }

  function Successor(c: seq<nat>, k: nat): nat {
    if k + 1 < |c| then c[k + 1] else INVALID
  }

  /** The `next` indices, followed from `head`, spell out exactly the chain `c`. */
  ghost predicate Linked(es: seq<Entry>, head: nat, c: seq<nat>) {
    && head == (if c == [] then INVALID else c[0])
    && |es| <= MAX_REGISTERS
    && (forall k :: 0 <= k < |c| ==> c[k] < |es|)
    && forall k {:trigger es[c[k]]} :: 0 <= k < |c| ==> es[c[k]].next == Successor(c, k)
  }

  ghost predicate Occurs(es: seq<Entry>, c: seq<nat>, r: RegNum)
    requires forall k :: 0 <= k < |c| ==> c[k] < |es|
  {
    exists k :: 0 <= k < |c| && es[c[k]].regnum == r
  }

  /** The chain holds exactly the rules of this bucket, one entry per register number. */
  ghost predicate Holds(es: seq<Entry>, c: seq<nat>, bucket: nat, rules: Rules) {
    && (forall k :: 0 <= k < |c| ==> c[k] < |es|)
    && (forall k {:trigger es[c[k]]} :: 0 <= k < |c| ==>
          && es[c[k]].regnum % BUCKET_COUNT == bucket
          && es[c[k]].regnum in rules
          && rules[es[c[k]].regnum] == es[c[k]].Rule())
    && (forall j, k :: 0 <= j < k < |c| ==> es[c[j]].regnum != es[c[k]].regnum)
    && (forall r {:trigger Occurs(es, c, r)} :: r in rules && r % BUCKET_COUNT == bucket ==> Occurs(es, c, r))
  }

  /** Every entry is on exactly one chain, once, or abandoned. */
  ghost predicate Partition(chains: seq<seq<nat>>, owner: seq<nat>) {
    && |chains| == TABLE_SLOTS + 1
    && |owner| == MAX_REGISTERS
    && (forall s, k :: 0 <= s < |chains| && 0 <= k < |chains[s]| ==>
          chains[s][k] < MAX_REGISTERS && owner[chains[s][k]] == s)
    && (forall s, j, k :: 0 <= s < |chains| && 0 <= j < k < |chains[s]| ==> chains[s][j] != chains[s][k])
    && (forall i :: 0 <= i < MAX_REGISTERS ==> owner[i] <= ABANDONED && (owner[i] < ABANDONED ==> i in chains[owner[i]]))
  }

  predicate Live(s: nat, depths: nat) {
    s < BUCKET_COUNT * depths || s == FREE
  }

  /** Every bucket of the saved tables, and the free list, is threaded as its chain says. */
  ghost predicate AllLinked(es: seq<Entry>, heads: seq<uint8>, chains: seq<seq<nat>>, depths: nat)
    requires |heads| == |chains| == TABLE_SLOTS + 1
  {
    forall s: nat :: s < |heads| && Live(s, depths) ==> Linked(es, heads[s], chains[s])
  }

  ghost predicate AllHeld(es: seq<Entry>, chains: seq<seq<nat>>, rules: seq<Rules>)
    requires |chains| == TABLE_SLOTS + 1 && |rules| <= MAX_STATES
  {
    forall s: nat :: s < BUCKET_COUNT * |rules| ==> Holds(es, chains[s], s % BUCKET_COUNT, rules[s / BUCKET_COUNT])
  }

  datatype Pool = Pool(es: seq<Entry>, heads: seq<uint8>, chains: seq<seq<nat>>, owner: seq<nat>) {
    ghost predicate Ok(rules: seq<Rules>) {
      && |es| == MAX_REGISTERS
      && |heads| == TABLE_SLOTS + 1
      && 1 <= |rules| <= MAX_STATES
      && Partition(chains, owner)
      && AllLinked(es, heads, chains, |rules|)
      && (forall s: nat :: BUCKET_COUNT * |rules| <= s < TABLE_SLOTS ==> chains[s] == [])
      && AllHeld(es, chains, rules)
    }

    /** The register numbers left in the free entries, in free-list order. */
    ghost function Stale(): seq<RegNum>
      requires |chains| == TABLE_SLOTS + 1
      requires forall k :: 0 <= k < |chains[FREE]| ==> chains[FREE][k] < |es|
    {
      seq(|chains[FREE]|, k requires 0 <= k < |chains[FREE]| => es[chains[FREE][k]].regnum)
    }

    /** Overwrites the rule of an entry in place. */
    ghost function Rewritten(i: nat, rule: RegRule): Pool
      requires i < |es|
    {
      this.(es := es[i := es[i].(kind := rule.kind, value := rule.value)])
    }

    /** Moves the first free entry to the end of the chain of `slot`. */
    ghost function Appended(slot: nat, r: RegNum, rule: RegRule): Pool
      requires slot < FREE && |chains| == |heads| == TABLE_SLOTS + 1 && |es| == MAX_REGISTERS == |owner|
      requires chains[FREE] != [] && chains[FREE][0] < MAX_REGISTERS
      requires forall k :: 0 <= k < |chains[slot]| ==> chains[slot][k] < MAX_REGISTERS
    {
      var e := chains[FREE][0];
      var c := chains[slot];
      var es1 := es[e := Entry(rule.value, r, rule.kind, INVALID)];
      var heads1 := heads[FREE := es[e].next];
      Pool(
        if c == [] then es1 else es1[c[|c| - 1] := es1[c[|c| - 1]].(next := e)],
        if c == [] then heads1[slot := e] else heads1,
        chains[FREE := chains[FREE][1..]][slot := c + [e]],
        owner[e := slot])
    }

    /** Moves the entry at position `k` of the chain of `slot` to the front of the free list. */
    ghost function Freed(slot: nat, k: nat): Pool
      requires slot < FREE && |chains| == |heads| == TABLE_SLOTS + 1 && |es| == MAX_REGISTERS == |owner|
      requires k < |chains[slot]| && forall j :: 0 <= j < |chains[slot]| ==> chains[slot][j] < MAX_REGISTERS
    {
      var c := chains[slot];
      var e := c[k];
      var es1 := if k == 0 then es else es[c[k - 1] := es[c[k - 1]].(next := es[e].next)];
      var heads1 := if k == 0 then heads[slot := es[e].next] else heads;
      Pool(
        es1[e := es1[e].(next := heads[FREE])],
        heads1[FREE := e],
        chains[slot := c[..k] + c[k + 1..]][FREE := [e] + chains[FREE]],
        owner[e := FREE])
    }
  }

  /** Entries on different chains, or at different positions, are different entries. */
  lemma ChainsDisjoint(p: Pool, s: nat, j: nat, t: nat, k: nat)
    requires Partition(p.chains, p.owner)
    requires s < |p.chains| && t < |p.chains| && j < |p.chains[s]| && k < |p.chains[t]|
    ensures p.chains[s][j] == p.chains[t][k] <==> s == t && j == k
  {
  }

  /** Following a bucket chain: its head, and the link out of position `k`. */
  lemma ChainHead(p: Pool, rules: seq<Rules>, slot: nat)
    requires p.Ok(rules) && slot < BUCKET_COUNT * |rules|
    ensures slot < |p.heads| == |p.chains|
    ensures p.heads[slot] == if p.chains[slot] == [] then INVALID else p.chains[slot][0]
    ensures forall k :: 0 <= k < |p.chains[slot]| ==> p.chains[slot][k] < |p.es|
  {
    assert Linked(p.es, p.heads[slot], p.chains[slot]);
  }

  lemma ChainNext(p: Pool, rules: seq<Rules>, slot: nat, k: nat)
    requires p.Ok(rules) && slot < BUCKET_COUNT * |rules| && k < |p.chains[slot]|
    ensures p.chains[slot][k] < |p.es| && p.es[p.chains[slot][k]].next == Successor(p.chains[slot], k)
  {
    assert Linked(p.es, p.heads[slot], p.chains[slot]);
  }

  lemma FreeHead(p: Pool, rules: seq<Rules>)
    requires p.Ok(rules)
    ensures |p.heads| == |p.chains| == FREE + 1 && |p.es| == |p.owner| == MAX_REGISTERS
    ensures p.heads[FREE] == (if p.chains[FREE] == [] then INVALID else p.chains[FREE][0])
    ensures forall k :: 0 <= k < |p.chains[FREE]| ==> p.chains[FREE][k] < |p.es|
    ensures |p.Stale()| == |p.chains[FREE]|
  {
    assert Linked(p.es, p.heads[FREE], p.chains[FREE]);
  }

  lemma FreeNext(p: Pool, rules: seq<Rules>, k: nat)
    requires p.Ok(rules) && k < |p.chains[FREE]|
    ensures p.chains[FREE][k] < |p.es| && p.es[p.chains[FREE][k]].next == Successor(p.chains[FREE], k)
  {
    assert Linked(p.es, p.heads[FREE], p.chains[FREE]);
  }

  lemma FoundInChain(p: Pool, rules: seq<Rules>, slot: nat, k: nat, r: RegNum)
    requires p.Ok(rules) && slot < BUCKET_COUNT * |rules| && k < |p.chains[slot]|
    requires p.es[p.chains[slot][k]].regnum == r
    ensures slot % BUCKET_COUNT == r % BUCKET_COUNT
    ensures r in rules[slot / BUCKET_COUNT]
    ensures rules[slot / BUCKET_COUNT][r] == p.es[p.chains[slot][k]].Rule()
  {
    assert Holds(p.es, p.chains[slot], slot % BUCKET_COUNT, rules[slot / BUCKET_COUNT]);
  }

  lemma NotInChain(p: Pool, rules: seq<Rules>, slot: nat, r: RegNum)
    requires p.Ok(rules) && slot < BUCKET_COUNT * |rules| && slot % BUCKET_COUNT == r % BUCKET_COUNT
    requires forall k :: 0 <= k < |p.chains[slot]| ==> p.es[p.chains[slot][k]].regnum != r
    ensures r !in rules[slot / BUCKET_COUNT]
  {
    assert Holds(p.es, p.chains[slot], slot % BUCKET_COUNT, rules[slot / BUCKET_COUNT]);
    assert !Occurs(p.es, p.chains[slot], r);
  }

  /** Changing entries outside a chain, or only their rules, leaves the chain linked. */
  lemma LinkedFrame(es: seq<Entry>, es': seq<Entry>, head: nat, c: seq<nat>)
    requires Linked(es, head, c) && |es'| == |es|
    requires forall k :: 0 <= k < |c| ==> es'[c[k]].next == es[c[k]].next
    ensures Linked(es', head, c)
  {
  }

  /** Changing only the links leaves the contents of a chain alone. */
  lemma HoldsFrame(es: seq<Entry>, es': seq<Entry>, c: seq<nat>, bucket: nat, rules: Rules)
    requires Holds(es, c, bucket, rules) && |es'| == |es|
    requires forall k :: 0 <= k < |c| ==> es'[c[k]].regnum == es[c[k]].regnum && es'[c[k]].Rule() == es[c[k]].Rule()
    ensures Holds(es', c, bucket, rules)
  {
    forall r | r in rules && r % BUCKET_COUNT == bucket
      ensures Occurs(es', c, r)
    {
      assert Occurs(es, c, r);
      var k :| 0 <= k < |c| && es[c[k]].regnum == r;
      assert es'[c[k]].regnum == r;
    }
  }

  /** A bucket is blind to rules of registers that hash elsewhere. */
  lemma HoldsOtherBucket(es: seq<Entry>, c: seq<nat>, bucket: nat, rules: Rules, rules': Rules)
    requires Holds(es, c, bucket, rules)
    requires forall r :: r % BUCKET_COUNT == bucket ==> (r in rules <==> r in rules')
    requires forall r :: r % BUCKET_COUNT == bucket && r in rules && r in rules' ==> rules'[r] == rules[r]
    ensures Holds(es, c, bucket, rules')
  {
    forall r | r in rules' && r % BUCKET_COUNT == bucket
      ensures Occurs(es, c, r)
    {
      assert r in rules;
    }
  }

  lemma HoldsRewritten(es: seq<Entry>, c: seq<nat>, k: nat, bucket: nat, rules: Rules, rule: RegRule)
    requires Holds(es, c, bucket, rules) && k < |c|
    ensures
      var e := es[c[k]];
      Holds(es[c[k] := e.(kind := rule.kind, value := rule.value)], c, bucket, WithRule(rules, e.regnum, rule))
  {
    var r := es[c[k]].regnum;
    var es' := es[c[k] := es[c[k]].(kind := rule.kind, value := rule.value)];
    var rules' := WithRule(rules, r, rule);
    forall j | 0 <= j < |c|
      ensures es'[c[j]].regnum == es[c[j]].regnum && rules'[es'[c[j]].regnum] == es'[c[j]].Rule()
    {
    }
    forall q | q in rules' && q % BUCKET_COUNT == bucket
      ensures Occurs(es', c, q)
    {
      assert Occurs(es, c, q);
      var j :| 0 <= j < |c| && es[c[j]].regnum == q;
      assert es'[c[j]].regnum == q;
    }
  }

  lemma RewriteKeepsOk(p: Pool, rules: seq<Rules>, slot: nat, k: nat, r: RegNum, rule: RegRule)
    requires p.Ok(rules) && slot < BUCKET_COUNT * |rules| && k < |p.chains[slot]|
    requires p.es[p.chains[slot][k]].regnum == r
    ensures
      var d := slot / BUCKET_COUNT;
      var p' := p.Rewritten(p.chains[slot][k], rule);
      r in rules[d] && p'.Ok(rules[d := WithRule(rules[d], r, rule)]) && p'.Stale() == p.Stale()
  {
    hide Holds, Linked;
    FoundInChain(p, rules, slot, k, r);
    var d := slot / BUCKET_COUNT;
    var e := p.chains[slot][k];
    var p' := p.Rewritten(e, rule);
    var rules' := rules[d := WithRule(rules[d], r, rule)];
    forall s: nat | s < |p'.heads| && Live(s, |rules'|)
      ensures Linked(p'.es, p'.heads[s], p'.chains[s])
    {
      LinkedFrame(p.es, p'.es, p.heads[s], p.chains[s]);
    }
    forall s: nat | s < BUCKET_COUNT * |rules'|
      ensures Holds(p'.es, p'.chains[s], s % BUCKET_COUNT, rules'[s / BUCKET_COUNT])
    {
      if s == slot {
        HoldsRewritten(p.es, p.chains[s], k, s % BUCKET_COUNT, rules[d], rule);
      } else {
        forall j | 0 <= j < |p.chains[s]| ensures p.chains[s][j] != e {
          ChainsDisjoint(p, s, j, slot, k);
        }
        HoldsUntouched(p.es, p'.es, p.chains[s], s % BUCKET_COUNT, rules[s / BUCKET_COUNT], e, r, rule, s / BUCKET_COUNT == d);
      }
    }
  }

  lemma HoldsUntouched(es: seq<Entry>, es': seq<Entry>, c: seq<nat>, bucket: nat, rules: Rules, i: nat, r: RegNum,
      rule: RegRule, same: bool)
    requires Holds(es, c, bucket, rules) && |es'| == |es|
    requires i !in c && forall j :: 0 <= j < |es| && j != i ==> es'[j] == es[j]
    requires same ==> r % BUCKET_COUNT != bucket
    ensures Holds(es', c, bucket, if same then WithRule(rules, r, rule) else rules)
  {
    HoldsFrame(es, es', c, bucket, rules);
    if same {
      HoldsOtherBucket(es', c, bucket, rules, WithRule(rules, r, rule));
    }
  }

  lemma PartitionAppended(chains: seq<seq<nat>>, owner: seq<nat>, slot: nat)
    requires Partition(chains, owner) && slot < FREE && chains[FREE] != []
    ensures
      var e := chains[FREE][0];
      Partition(chains[FREE := chains[FREE][1..]][slot := chains[slot] + [e]], owner[e := slot])
  {
    var e := chains[FREE][0];
    var chains' := chains[FREE := chains[FREE][1..]][slot := chains[slot] + [e]];
    var owner' := owner[e := slot];
    assert chains'[slot][|chains[slot]|] == e;
    forall i | 0 <= i < MAX_REGISTERS
      ensures owner'[i] <= ABANDONED && (owner'[i] < ABANDONED ==> i in chains'[owner'[i]])
    {
      if i != e && owner[i] < ABANDONED {
        var k :| 0 <= k < |chains[owner[i]]| && chains[owner[i]][k] == i;
        if owner[i] == FREE {
          assert chains'[FREE][k - 1] == i;
        } else {
          assert chains'[owner[i]][k] == i;
        }
      }
    }
  }

  lemma LinkedAppended(es: seq<Entry>, head: nat, c: seq<nat>, e: nat, entry: Entry)
    requires Linked(es, head, c) && e < |es| && e !in c && entry.next == INVALID
    requires forall j, k :: 0 <= j < k < |c| ==> c[j] != c[k]
    ensures
      var es1 := es[e := entry];
      Linked(if c == [] then es1 else es1[c[|c| - 1] := es1[c[|c| - 1]].(next := e)],
             if c == [] then e else head, c + [e])
  {
  }

  lemma HoldsAppended(es: seq<Entry>, es': seq<Entry>, c: seq<nat>, e: nat, bucket: nat, rules: Rules, r: RegNum,
      rule: RegRule)
    requires Holds(es, c, bucket, rules) && |es'| == |es| && e < |es| && r !in rules && r % BUCKET_COUNT == bucket
    requires forall k :: 0 <= k < |c| ==> es'[c[k]].regnum == es[c[k]].regnum && es'[c[k]].Rule() == es[c[k]].Rule()
    requires es'[e].regnum == r && es'[e].Rule() == rule
    ensures Holds(es', c + [e], bucket, WithRule(rules, r, rule))
  {
    var c' := c + [e];
    forall q | q in WithRule(rules, r, rule) && q % BUCKET_COUNT == bucket
      ensures Occurs(es', c', q)
    {
      if q == r {
        assert c'[|c|] == e;
      } else {
        assert Occurs(es, c, q);
        var k :| 0 <= k < |c| && es[c[k]].regnum == q;
        assert c'[k] == c[k];
      }
    }
  }

  /** What a free entry needs to join the chain of a bucket that does not hold its register yet. */
  ghost predicate CanAppend(p: Pool, rules: seq<Rules>, slot: nat, r: RegNum) {
    && p.Ok(rules)
    && slot < BUCKET_COUNT * |rules|
    && slot % BUCKET_COUNT == r % BUCKET_COUNT
    && r !in rules[slot / BUCKET_COUNT]
    && p.chains[FREE] != []
  }

  lemma CanAppendBounds(p: Pool, rules: seq<Rules>, slot: nat, r: RegNum)
    requires CanAppend(p, rules, slot, r)
    ensures slot < FREE && |p.heads| == |p.chains| == FREE + 1 && |p.es| == |p.owner| == MAX_REGISTERS
    ensures p.chains[FREE] != [] && p.heads[FREE] == p.chains[FREE][0] < MAX_REGISTERS
    ensures forall k :: 0 <= k < |p.chains[slot]| ==> p.chains[slot][k] < MAX_REGISTERS
    ensures p.chains[slot] == [] ==> p.heads[slot] == INVALID
  {
    FreeHead(p, rules);
    ChainHead(p, rules, slot);
  }

  lemma AppendedLinked(p: Pool, rules: seq<Rules>, slot: nat, r: RegNum, rule: RegRule, s: nat)
    requires CanAppend(p, rules, slot, r) && s < |p.heads| && Live(s, |rules|)
    ensures
      var p' := p.Appended(slot, r, rule);
      Linked(p'.es, p'.heads[s], p'.chains[s])
  {
    hide Holds, Linked;
    var p' := p.Appended(slot, r, rule);
    if s == slot {
      LinkedAppended(p.es, p.heads[s], p.chains[s], p.chains[FREE][0], Entry(rule.value, r, rule.kind, INVALID));
    } else if s == FREE {
      LinkedTail(p.es, p.heads[FREE], p.chains[FREE]);
      LinkedFrame(p.es, p'.es, p'.heads[FREE], p'.chains[FREE]);
    } else {
      LinkedFrame(p.es, p'.es, p.heads[s], p.chains[s]);
    }
  }

  lemma AppendedHolds(p: Pool, rules: seq<Rules>, slot: nat, r: RegNum, rule: RegRule, s: nat)
    requires CanAppend(p, rules, slot, r) && s < BUCKET_COUNT * |rules|
    ensures
      var d := slot / BUCKET_COUNT;
      var p' := p.Appended(slot, r, rule);
      Holds(p'.es, p'.chains[s], s % BUCKET_COUNT, rules[d := WithRule(rules[d], r, rule)][s / BUCKET_COUNT])
  {
    hide Holds, Linked;
    var d := slot / BUCKET_COUNT;
    var p' := p.Appended(slot, r, rule);
    if s == slot {
      HoldsAppended(p.es, p'.es, p.chains[s], p.chains[FREE][0], s % BUCKET_COUNT, rules[d], r, rule);
    } else {
      HoldsFrame(p.es, p'.es, p.chains[s], s % BUCKET_COUNT, rules[s / BUCKET_COUNT]);
      if s / BUCKET_COUNT == d {
        HoldsOtherBucket(p'.es, p.chains[s], s % BUCKET_COUNT, rules[d], WithRule(rules[d], r, rule));
      }
    }
  }

  lemma AppendKeepsOk(p: Pool, rules: seq<Rules>, slot: nat, r: RegNum, rule: RegRule)
    requires CanAppend(p, rules, slot, r)
    ensures
      var d := slot / BUCKET_COUNT;
      var p' := p.Appended(slot, r, rule);
      p'.Ok(rules[d := WithRule(rules[d], r, rule)]) && p'.Stale() == p.Stale()[1..]
  {
    hide Holds, Linked;
    var d := slot / BUCKET_COUNT;
    var p' := p.Appended(slot, r, rule);
    var rules' := rules[d := WithRule(rules[d], r, rule)];
    PartitionAppended(p.chains, p.owner, slot);
    forall s: nat | s < |p'.heads| && Live(s, |rules'|)
      ensures Linked(p'.es, p'.heads[s], p'.chains[s])
    {
      AppendedLinked(p, rules, slot, r, rule, s);
    }
    forall s: nat | s < BUCKET_COUNT * |rules'|
      ensures Holds(p'.es, p'.chains[s], s % BUCKET_COUNT, rules'[s / BUCKET_COUNT])
    {
      AppendedHolds(p, rules, slot, r, rule, s);
    }
  }

  lemma LinkedTail(es: seq<Entry>, head: nat, c: seq<nat>)
    requires Linked(es, head, c) && c != []
    ensures Linked(es, es[c[0]].next, c[1..])
  {
  }

  /** The chains after entry `k` of the chain of `slot` has gone to the front of the free list. */
  ghost function FreedChains(chains: seq<seq<nat>>, slot: nat, k: nat): seq<seq<nat>>
    requires |chains| == TABLE_SLOTS + 1 && slot < FREE && k < |chains[slot]|
  {
    chains[slot := chains[slot][..k] + chains[slot][k + 1..]][FREE := [chains[slot][k]] + chains[FREE]]
  }

  /** Where the entry at position `j` of a chain has been before. */
  lemma FreedAt(chains: seq<seq<nat>>, slot: nat, k: nat, s: nat, j: nat)
    requires |chains| == TABLE_SLOTS + 1 && slot < FREE && k < |chains[slot]|
    requires s < |chains| && j < |FreedChains(chains, slot, k)[s]|
    ensures if s == FREE then j <= |chains[FREE]| else if s == slot then j + 1 < |chains[slot]| else j < |chains[s]|
    ensures
      FreedChains(chains, slot, k)[s][j] ==
      if s == FREE then (if j == 0 then chains[slot][k] else chains[FREE][j - 1])
      else if s == slot then (if j < k then chains[slot][j] else chains[slot][j + 1])
      else chains[s][j]
  {
  }

  lemma FreedOwner(chains: seq<seq<nat>>, owner: seq<nat>, slot: nat, k: nat, s: nat, j: nat)
    requires Partition(chains, owner) && slot < FREE && k < |chains[slot]|
    requires s < |chains| && j < |FreedChains(chains, slot, k)[s]|
    ensures chains[slot][k] < MAX_REGISTERS && FreedChains(chains, slot, k)[s][j] < MAX_REGISTERS
    ensures owner[chains[slot][k] := FREE][FreedChains(chains, slot, k)[s][j]] == s
  {
    hide FreedChains;
    FreedAt(chains, slot, k, s, j);
  }

  lemma FreedDistinct(chains: seq<seq<nat>>, owner: seq<nat>, slot: nat, k: nat, s: nat, i: nat, j: nat)
    requires Partition(chains, owner) && slot < FREE && k < |chains[slot]|
    requires s < |chains| && i < j < |FreedChains(chains, slot, k)[s]|
    ensures FreedChains(chains, slot, k)[s][i] != FreedChains(chains, slot, k)[s][j]
  {
    hide FreedChains;
    FreedAt(chains, slot, k, s, i);
    FreedAt(chains, slot, k, s, j);
  }

  lemma FreedCovers(chains: seq<seq<nat>>, owner: seq<nat>, slot: nat, k: nat, i: nat)
    requires Partition(chains, owner) && slot < FREE && k < |chains[slot]| && i < MAX_REGISTERS && owner[i] < ABANDONED
    ensures
      var chains' := FreedChains(chains, slot, k);
      i in chains'[if i == chains[slot][k] then FREE else owner[i]]
  {
    var chains' := FreedChains(chains, slot, k);
    assert chains'[FREE][0] == chains[slot][k];
    if i != chains[slot][k] {
      var j :| 0 <= j < |chains[owner[i]]| && chains[owner[i]][j] == i;
      if owner[i] == FREE {
        assert chains'[FREE][j + 1] == i;
      } else if owner[i] == slot {
        assert chains'[slot][if j < k then j else j - 1] == i;
      }
    }
  }

  lemma PartitionFreed(chains: seq<seq<nat>>, owner: seq<nat>, slot: nat, k: nat)
    requires Partition(chains, owner) && slot < FREE && k < |chains[slot]|
    ensures chains[slot][k] < |owner| && Partition(FreedChains(chains, slot, k), owner[chains[slot][k] := FREE])
  {
    hide FreedChains;
    var e := chains[slot][k];
    var chains' := FreedChains(chains, slot, k);
    var owner' := owner[e := FREE];
    SameNumber(chains, slot, k);
    forall s, j | 0 <= s < |chains'| && 0 <= j < |chains'[s]|
      ensures chains'[s][j] < MAX_REGISTERS && owner'[chains'[s][j]] == s
    {
      FreedOwner(chains, owner, slot, k, s, j);
    }
    forall s, i, j | 0 <= s < |chains'| && 0 <= i < j < |chains'[s]| ensures chains'[s][i] != chains'[s][j] {
      FreedDistinct(chains, owner, slot, k, s, i, j);
    }
    forall i | 0 <= i < MAX_REGISTERS
      ensures owner'[i] <= ABANDONED && (owner'[i] < ABANDONED ==> i in chains'[owner'[i]])
    {
      if owner[i] < ABANDONED {
        FreedCovers(chains, owner, slot, k, i);
      }
    }
  }

  lemma SameNumber(chains: seq<seq<nat>>, slot: nat, k: nat)
    requires |chains| == TABLE_SLOTS + 1 && slot < FREE && k < |chains[slot]|
    ensures |FreedChains(chains, slot, k)| == TABLE_SLOTS + 1
  {
  }

  lemma LinkedWithout(es: seq<Entry>, head: nat, c: seq<nat>, k: nat)
    requires Linked(es, head, c) && k < |c|
    requires forall i, j :: 0 <= i < j < |c| ==> c[i] != c[j]
    ensures
      var es1 := if k == 0 then es else es[c[k - 1] := es[c[k - 1]].(next := es[c[k]].next)];
      Linked(es1, if k == 0 then es[c[k]].next else head, c[..k] + c[k + 1..])
  {
  }

  lemma HoldsWithout(es: seq<Entry>, c: seq<nat>, k: nat, bucket: nat, rules: Rules)
    requires Holds(es, c, bucket, rules) && k < |c|
    ensures Holds(es, c[..k] + c[k + 1..], bucket, WithoutRule(rules, es[c[k]].regnum))
  {
    var c' := c[..k] + c[k + 1..];
    forall q | q in WithoutRule(rules, es[c[k]].regnum) && q % BUCKET_COUNT == bucket
      ensures Occurs(es, c', q)
    {
      assert Occurs(es, c, q);
      var j :| 0 <= j < |c| && es[c[j]].regnum == q;
      assert c'[if j < k then j else j - 1] == c[j];
    }
  }

  /** Position `k` of a bucket of a saved table holds the rule of `r`. */
  ghost predicate FoundAt(p: Pool, rules: seq<Rules>, slot: nat, k: nat, r: RegNum) {
    && p.Ok(rules)
    && slot < BUCKET_COUNT * |rules|
    && k < |p.chains[slot]|
    && p.chains[slot][k] < |p.es|
    && p.es[p.chains[slot][k]].regnum == r
  }

  lemma FreedLinked(p: Pool, rules: seq<Rules>, slot: nat, k: nat, r: RegNum, s: nat)
    requires FoundAt(p, rules, slot, k, r) && s < |p.heads| && Live(s, |rules|)
    ensures
      var p' := p.Freed(slot, k);
      Linked(p'.es, p'.heads[s], p'.chains[s])
  {
    hide Holds, Linked;
    var c := p.chains[slot];
    var p' := p.Freed(slot, k);
    if s == slot {
      LinkedWithout(p.es, p.heads[s], c, k);
      LinkedFrame(if k == 0 then p.es else p.es[c[k - 1] := p.es[c[k - 1]].(next := p.es[c[k]].next)], p'.es,
                  p'.heads[s], p'.chains[s]);
    } else if s == FREE {
      LinkedFrame(p.es, p'.es, p.heads[FREE], p.chains[FREE]);
      LinkedCons(p'.es, c[k], p.heads[FREE], p.chains[FREE]);
    } else {
      LinkedFrame(p.es, p'.es, p.heads[s], p.chains[s]);
    }
  }

  lemma FreedHolds(p: Pool, rules: seq<Rules>, slot: nat, k: nat, r: RegNum, s: nat)
    requires FoundAt(p, rules, slot, k, r) && s < BUCKET_COUNT * |rules|
    ensures
      var d := slot / BUCKET_COUNT;
      var p' := p.Freed(slot, k);
      Holds(p'.es, p'.chains[s], s % BUCKET_COUNT, rules[d := WithoutRule(rules[d], r)][s / BUCKET_COUNT])
  {
    hide Holds, Linked;
    FoundInChain(p, rules, slot, k, r);
    var d := slot / BUCKET_COUNT;
    var p' := p.Freed(slot, k);
    if s == slot {
      HoldsWithout(p.es, p.chains[s], k, s % BUCKET_COUNT, rules[d]);
      HoldsFrame(p.es, p'.es, p'.chains[s], s % BUCKET_COUNT, WithoutRule(rules[d], r));
    } else {
      HoldsFrame(p.es, p'.es, p.chains[s], s % BUCKET_COUNT, rules[s / BUCKET_COUNT]);
      if s / BUCKET_COUNT == d {
        HoldsOtherBucket(p'.es, p.chains[s], s % BUCKET_COUNT, rules[d], WithoutRule(rules[d], r));
      }
    }
  }

  lemma FreedKeepsOk(p: Pool, rules: seq<Rules>, slot: nat, k: nat, r: RegNum)
    requires FoundAt(p, rules, slot, k, r)
    ensures
      var d := slot / BUCKET_COUNT;
      var p' := p.Freed(slot, k);
      r in rules[d] && p'.Ok(rules[d := WithoutRule(rules[d], r)]) && p'.Stale() == [r] + p.Stale()
  {
    hide Holds, Linked;
    FoundInChain(p, rules, slot, k, r);
    var d := slot / BUCKET_COUNT;
    var p' := p.Freed(slot, k);
    var rules' := rules[d := WithoutRule(rules[d], r)];
    PartitionFreed(p.chains, p.owner, slot, k);
    forall s: nat | s < |p'.heads| && Live(s, |rules'|)
      ensures Linked(p'.es, p'.heads[s], p'.chains[s])
    {
      FreedLinked(p, rules, slot, k, r, s);
    }
    forall s: nat | s < BUCKET_COUNT * |rules'|
      ensures Holds(p'.es, p'.chains[s], s % BUCKET_COUNT, rules'[s / BUCKET_COUNT])
    {
      FreedHolds(p, rules, slot, k, r, s);
    }
  }

  lemma LinkedCons(es: seq<Entry>, e: nat, head: nat, c: seq<nat>)
    requires Linked(es, head, c) && e < |es| && es[e].next == head
    ensures Linked(es, e, [e] + c)
  {
  }

  /** `push_state` clears the bucket heads of the next table. */
  lemma PushKeepsOk(p: Pool, rules: seq<Rules>, heads': seq<uint8>)
    requires p.Ok(rules) && |rules| < MAX_STATES && |heads'| == |p.heads|
    requires forall s: nat :: s < |heads'| ==>
                heads'[s] == if BUCKET_COUNT * |rules| <= s < BUCKET_COUNT * (|rules| + 1) then INVALID else p.heads[s]
    ensures p.(heads := heads').Ok(rules + [map[]]) && p.(heads := heads').Stale() == p.Stale()
  {
    var p' := p.(heads := heads');
    var rules' := rules + [map[]];
    forall s: nat | s < |heads'| && Live(s, |rules'|)
      ensures Linked(p'.es, p'.heads[s], p'.chains[s])
    {
      assert Live(s, |rules|) ==> Linked(p.es, p.heads[s], p.chains[s]);
    }
    forall s: nat | s < BUCKET_COUNT * |rules'|
      ensures Holds(p'.es, p'.chains[s], s % BUCKET_COUNT, rules'[s / BUCKET_COUNT])
    {
      assert s < BUCKET_COUNT * |rules| ==> Holds(p.es, p.chains[s], s % BUCKET_COUNT, rules[s / BUCKET_COUNT]);
    }
  }

  /** The chains that `pop_state` leaves behind are abandoned: their entries never return to the free list. */
  ghost function Popped(p: Pool, depths: nat): Pool
    requires |p.chains| == TABLE_SLOTS + 1
  {
    p.(chains := seq(|p.chains|, s requires 0 <= s < |p.chains| => if Live(s, depths) then p.chains[s] else []),
       owner := seq(|p.owner|, i requires 0 <= i < |p.owner| => if Live(p.owner[i], depths) then p.owner[i] else ABANDONED))
  }

  lemma PopKeepsOk(p: Pool, rules: seq<Rules>)
    requires p.Ok(rules) && 1 < |rules|
    ensures |p.chains| == TABLE_SLOTS + 1
    ensures var p' := Popped(p, |rules| - 1); p'.es == p.es && p'.heads == p.heads
    ensures
      var p' := Popped(p, |rules| - 1);
      p'.Ok(rules[..|rules| - 1]) && p'.Stale() == p.Stale()
  {
    hide Holds, Linked;
    var n := |rules| - 1;
    var p' := Popped(p, n);
    forall i | 0 <= i < MAX_REGISTERS
      ensures p'.owner[i] <= ABANDONED && (p'.owner[i] < ABANDONED ==> i in p'.chains[p'.owner[i]])
    {
      if p.owner[i] < ABANDONED && Live(p.owner[i], n) {
        assert p'.chains[p.owner[i]] == p.chains[p.owner[i]];
      }
    }
    forall s: nat | s < |p'.heads| && Live(s, n)
      ensures Linked(p'.es, p'.heads[s], p'.chains[s])
    {
      assert Linked(p.es, p.heads[s], p.chains[s]);
    }
    forall s: nat | s < BUCKET_COUNT * n
      ensures Holds(p'.es, p'.chains[s], s % BUCKET_COUNT, rules[..n][s / BUCKET_COUNT])
    {
      assert Holds(p.es, p.chains[s], s % BUCKET_COUNT, rules[s / BUCKET_COUNT]);
    }
  }

  /** The constructor threads all entries on the free list, in index order. */
  ghost function InitialChains(): seq<seq<nat>> {
    seq(TABLE_SLOTS + 1, s => if s == FREE then seq(MAX_REGISTERS, i => i) else [])
  }

  ghost function InitialPool(es: seq<Entry>, heads: seq<uint8>): Pool {
    Pool(es, heads, InitialChains(), seq(MAX_REGISTERS, i => FREE))
  }

  lemma InitialPartition(es: seq<Entry>, heads: seq<uint8>)
    ensures Partition(InitialPool(es, heads).chains, InitialPool(es, heads).owner)
  {
    var p := InitialPool(es, heads);
    forall i | 0 <= i < MAX_REGISTERS ensures i in p.chains[FREE] {
      assert p.chains[FREE][i] == i;
    }
  }

  lemma InitialOk(es: seq<Entry>, heads: seq<uint8>)
    requires |es| == MAX_REGISTERS && |heads| == TABLE_SLOTS + 1
    requires forall i :: 0 <= i < MAX_REGISTERS ==> es[i].next == if i + 1 < MAX_REGISTERS then i + 1 else INVALID
    requires heads[FREE] == 0 && forall s: nat :: s < BUCKET_COUNT ==> heads[s] == INVALID
    ensures
      var p := Pool(es, heads, InitialChains(), seq(MAX_REGISTERS, i => FREE));
      p.Ok([map[]]) && |p.Stale()| == MAX_REGISTERS
  {
    hide Partition;
    InitialPartition(es, heads);
  }
}

/** The rules of one saved table in bucket and chain order: what an iterator over the table walks through. */
module CfaEnumeration {
  import opened Common
  import opened CfaTable
  import opened CfaPool

  ghost function Concat(cs: seq<seq<nat>>): seq<nat> {
    if cs == [] then [] else cs[0] + Concat(cs[1..])
  }

  /** Consecutive buckets, the first of them numbered `b`, hold the rules that hash to them. */
  ghost predicate RowHolds(es: seq<Entry>, cs: seq<seq<nat>>, b: nat, rules: Rules) {
    forall i :: 0 <= i < |cs| ==> Holds(es, cs[i], b + i, rules)
  }

  lemma RowTail(es: seq<Entry>, cs: seq<seq<nat>>, b: nat, rules: Rules)
    requires RowHolds(es, cs, b, rules) && cs != []
    ensures Holds(es, cs[0], b, rules) && RowHolds(es, cs[1..], b + 1, rules)
  {
    assert Holds(es, cs[0], b + 0, rules);
    forall i | 0 <= i < |cs[1..]| ensures Holds(es, cs[1..][i], b + 1 + i, rules) {
      assert Holds(es, cs[i + 1], b + (i + 1), rules);
    }
  }

  /** Every enumerated entry holds a rule of the table. */
  lemma {:induction false} ConcatHolds(es: seq<Entry>, cs: seq<seq<nat>>, b: nat, rules: Rules, i: nat)
    requires RowHolds(es, cs, b, rules) && i < |Concat(cs)|
    ensures
      var e := Concat(cs)[i];
      && e < |es|
      && es[e].regnum in rules && rules[es[e].regnum] == es[e].Rule()
      && es[e].regnum % BUCKET_COUNT >= b
  {
    RowTail(es, cs, b, rules);
    if i >= |cs[0]| {
      ConcatHolds(es, cs[1..], b + 1, rules, i - |cs[0]|);
    }
  }

  /** Every rule of the buckets from `b` on is enumerated. */
  lemma {:induction false} ConcatCovers(es: seq<Entry>, cs: seq<seq<nat>>, b: nat, rules: Rules, r: RegNum)
    returns (i: nat)
    requires RowHolds(es, cs, b, rules) && b <= r % BUCKET_COUNT < b + |cs| && r in rules
    ensures i < |Concat(cs)| && Concat(cs)[i] < |es| && es[Concat(cs)[i]].regnum == r
  {
    RowTail(es, cs, b, rules);
    if r % BUCKET_COUNT == b {
      assert Occurs(es, cs[0], r);
      i :| 0 <= i < |cs[0]| && es[cs[0][i]].regnum == r;
    } else {
      var j := ConcatCovers(es, cs[1..], b + 1, rules, r);
      i := |cs[0]| + j;
    }
  }

  lemma {:induction false} ConcatDistinct(es: seq<Entry>, cs: seq<seq<nat>>, b: nat, rules: Rules, i: nat, j: nat)
    requires RowHolds(es, cs, b, rules) && i < j < |Concat(cs)|
    ensures
      var f := Concat(cs);
      f[i] < |es| && f[j] < |es| && es[f[i]].regnum != es[f[j]].regnum
  {
    RowTail(es, cs, b, rules);
    ConcatHolds(es, cs, b, rules, i);
    ConcatHolds(es, cs, b, rules, j);
    var n := |cs[0]|;
    if i < n && j >= n {
      ConcatHolds(es, cs[1..], b + 1, rules, j - n);
    } else if i >= n {
      ConcatDistinct(es, cs[1..], b + 1, rules, i - n, j - n);
    }
  }

  /** The register numbers of entries. */
  ghost function Registers(es: seq<Entry>, f: seq<nat>): (r: seq<RegNum>)
    requires forall i :: 0 <= i < |f| ==> f[i] < |es|
  {
    seq(|f|, i requires 0 <= i < |f| => es[f[i]].regnum)
  }

  /** The buckets are met one after the other. */
  ghost predicate BucketOrder(regs: seq<RegNum>) {
    forall i, j :: 0 <= i < j < |regs| ==> regs[i] % BUCKET_COUNT <= regs[j] % BUCKET_COUNT
  }

  lemma {:induction false} ConcatInOrder(es: seq<Entry>, cs: seq<seq<nat>>, b: nat, rules: Rules, i: nat, j: nat)
    requires RowHolds(es, cs, b, rules) && i < j < |Concat(cs)|
    ensures
      var f := Concat(cs);
      f[i] < |es| && f[j] < |es| && es[f[i]].regnum % BUCKET_COUNT <= es[f[j]].regnum % BUCKET_COUNT
  {
    RowTail(es, cs, b, rules);
    ConcatHolds(es, cs, b, rules, i);
    ConcatHolds(es, cs, b, rules, j);
    if i >= |cs[0]| {
      ConcatInOrder(es, cs[1..], b + 1, rules, i - |cs[0]|, j - |cs[0]|);
    }
  }

  /** Where an enumeration in bucket order gets a new register: behind all those of buckets up to its own. */
  ghost function Inserted(regs: seq<RegNum>, r: RegNum): seq<RegNum> {
    if regs == [] || regs[0] % BUCKET_COUNT > r % BUCKET_COUNT then [r] + regs else [regs[0]] + Inserted(regs[1..], r)
  }

  lemma {:induction false} InsertedBetween(a: seq<RegNum>, c: seq<RegNum>, r: RegNum)
    requires forall i :: 0 <= i < |a| ==> a[i] % BUCKET_COUNT <= r % BUCKET_COUNT
    requires c != [] ==> c[0] % BUCKET_COUNT > r % BUCKET_COUNT
    ensures Inserted(a + c, r) == a + [r] + c
  {
    if a == [] {
      assert a + c == c && a + [r] + c == [r] + c;
    } else {
      assert (a + c)[1..] == a[1..] + c;
      InsertedBetween(a[1..], c, r);
      assert [a[0]] + (a[1..] + [r] + c) == a + [r] + c;
    }
  }

  lemma {:induction false} ConcatSplit(cs: seq<seq<nat>>, n: nat)
    requires n <= |cs|
    ensures Concat(cs) == Concat(cs[..n]) + Concat(cs[n..])
  {
    if n == 0 {
      assert cs[..0] == [] && cs[0..] == cs;
    } else {
      assert cs[..n][1..] == cs[1..][..n - 1] && cs[1..][n - 1..] == cs[n..];
      ConcatSplit(cs[1..], n - 1);
      assert Concat(cs[..n]) == cs[0] + Concat(cs[1..][..n - 1]);
    }
  }

  /** The entries of the first buckets belong to them. */
  lemma {:induction false} ConcatBelow(es: seq<Entry>, cs: seq<seq<nat>>, b: nat, rules: Rules, i: nat)
    requires RowHolds(es, cs, b, rules) && i < |Concat(cs)|
    ensures Concat(cs)[i] < |es| && es[Concat(cs)[i]].regnum % BUCKET_COUNT < b + |cs|
  {
    RowTail(es, cs, b, rules);
    if i >= |cs[0]| {
      ConcatBelow(es, cs[1..], b + 1, rules, i - |cs[0]|);
    }
  }

  lemma RowPart(es: seq<Entry>, cs: seq<seq<nat>>, rules: Rules, n: nat)
    requires RowHolds(es, cs, 0, rules) && n <= |cs|
    ensures RowHolds(es, cs[..n], 0, rules) && RowHolds(es, cs[n..], n, rules)
  {
    hide Holds;
    forall i | 0 <= i < |cs[n..]| ensures Holds(es, cs[n..][i], n + i, rules) {
      assert Holds(es, cs[n + i], 0 + (n + i), rules);
    }
  }

  ghost predicate InTable(es: seq<Entry>, f: seq<nat>) {
    forall i :: 0 <= i < |f| ==> f[i] < |es|
  }

  lemma RegistersConcat(es: seq<Entry>, a: seq<nat>, c: seq<nat>)
    requires InTable(es, a) && InTable(es, c)
    ensures InTable(es, a + c) && Registers(es, a + c) == Registers(es, a) + Registers(es, c)
  {
  }

  lemma RegistersKept(es: seq<Entry>, es': seq<Entry>, f: seq<nat>, e: nat)
    requires |es'| == |es| && (forall i :: 0 <= i < |es| && i != e ==> es'[i].regnum == es[i].regnum)
    requires InTable(es, f) && e !in f
    ensures InTable(es', f) && Registers(es', f) == Registers(es, f)
  {
  }

  /** The registers of the buckets up to `k`, and of those behind it. */
  lemma RegistersAround(es: seq<Entry>, cs: seq<seq<nat>>, rules: Rules, k: nat)
    requires RowHolds(es, cs, 0, rules) && k < |cs|
    ensures InTable(es, Concat(cs[..k + 1])) && InTable(es, Concat(cs[k + 1..]))
    ensures
      var a := Registers(es, Concat(cs[..k + 1]));
      forall i :: 0 <= i < |a| ==> a[i] % BUCKET_COUNT <= k
    ensures
      var c := Registers(es, Concat(cs[k + 1..]));
      c != [] ==> c[0] % BUCKET_COUNT > k
  {
    hide RowHolds, Concat;
    RowPart(es, cs, rules, k + 1);
    var a, c := Concat(cs[..k + 1]), Concat(cs[k + 1..]);
    forall i | 0 <= i < |a| ensures a[i] < |es| && es[a[i]].regnum % BUCKET_COUNT <= k {
      ConcatBelow(es, cs[..k + 1], 0, rules, i);
    }
    forall i | 0 <= i < |c| ensures c[i] < |es| && es[c[i]].regnum % BUCKET_COUNT > k {
      ConcatHolds(es, cs[k + 1..], k + 1, rules, i);
    }
  }

  /** Appending an entry to one of the buckets inserts its register into the enumeration. */
  lemma AppendedRegisters(es: seq<Entry>, es': seq<Entry>, cs: seq<seq<nat>>, rules: Rules, k: nat, e: nat, r: RegNum)
    requires RowHolds(es, cs, 0, rules) && k < |cs| && r % BUCKET_COUNT == k && e < |es'| == |es| && es'[e].regnum == r
    requires forall i :: 0 <= i < |es| && i != e ==> es'[i].regnum == es[i].regnum
    requires InTable(es, Concat(cs)) && e !in Concat(cs)
    ensures InTable(es', Concat(cs[k := cs[k] + [e]]))
    ensures Registers(es', Concat(cs[k := cs[k] + [e]])) == Inserted(Registers(es, Concat(cs)), r)
  {
    hide RowHolds, Inserted, Concat, InTable, Registers;
    var a, c := Concat(cs[..k + 1]), Concat(cs[k + 1..]);
    ConcatSplit(cs, k + 1);
    AppendedConcat(cs, k, e);
    RegistersAround(es, cs, rules, k);
    RegistersKept(es, es', a, e);
    RegistersKept(es, es', c, e);
    RegistersOne(es', e);
    RegistersConcat(es, a, c);
    RegistersConcat(es', a, [e]);
    RegistersConcat(es', a + [e], c);
    InsertedBetween(Registers(es, a), Registers(es, c), r);
  }

  lemma RegistersOne(es: seq<Entry>, e: nat)
    requires e < |es|
    ensures InTable(es, [e]) && Registers(es, [e]) == [es[e].regnum]
  {
  }

  lemma OneBucket(c: seq<nat>)
    ensures Concat([c]) == c
  {
    var cs := [c];
    assert cs[1..] == [];
  }

  lemma AppendedConcat(cs: seq<seq<nat>>, k: nat, e: nat)
    requires k < |cs|
    ensures Concat(cs[k := cs[k] + [e]]) == Concat(cs[..k + 1]) + [e] + Concat(cs[k + 1..])
  {
    var cs' := cs[k := cs[k] + [e]];
    ConcatSplit(cs', k);
    ConcatSplit(cs[..k + 1], k);
    assert cs'[..k] == cs[..k] == cs[..k + 1][..k];
    assert cs'[k..] == [cs[k] + [e]] + cs[k + 1..] && cs[..k + 1][k..] == [cs[k]];
    OneBucket(cs[k]);
    assert cs'[k..][1..] == cs[k + 1..];
  }

  /** The bucket chains of depth `d`, and their entries one after the other. */
  ghost function Buckets(p: Pool, d: nat): seq<seq<nat>>
    requires |p.chains| == TABLE_SLOTS + 1 && d < MAX_STATES
  {
    p.chains[BUCKET_COUNT * d..BUCKET_COUNT * (d + 1)]
  }

  ghost function Flat(p: Pool, d: nat): seq<nat>
    requires |p.chains| == TABLE_SLOTS + 1 && d < MAX_STATES
  {
    Concat(Buckets(p, d))
  }

  lemma BucketsHold(p: Pool, rules: seq<Rules>, d: nat)
    requires p.Ok(rules) && d < |rules|
    ensures |p.chains| == TABLE_SLOTS + 1 && |p.es| == MAX_REGISTERS && d < MAX_STATES
    ensures RowHolds(p.es, Buckets(p, d), 0, rules[d])
  {
    hide Holds, Linked;
    forall i | 0 <= i < BUCKET_COUNT ensures Holds(p.es, Buckets(p, d)[i], i, rules[d]) {
      var s := BUCKET_COUNT * d + i;
      assert Holds(p.es, p.chains[s], s % BUCKET_COUNT, rules[s / BUCKET_COUNT]);
    }
  }

  /**
   * The enumeration lists each register with a rule exactly once, so its length is the number of rules, at most 100.
   */
  lemma EnumerationComplete(p: Pool, rules: seq<Rules>, d: nat)
    requires p.Ok(rules) && d < |rules|
    ensures |p.chains| == TABLE_SLOTS + 1 && |p.es| == MAX_REGISTERS && d < MAX_STATES
    ensures
      var f := Flat(p, d);
      && (forall i :: 0 <= i < |f| ==> f[i] < |p.es| && p.es[f[i]].regnum in rules[d]
                                       && rules[d][p.es[f[i]].regnum] == p.es[f[i]].Rule())
      && Distinct(Registers(p.es, f)) && Elements(Registers(p.es, f)) == rules[d].Keys
      && |f| == |rules[d]| <= MAX_REGISTERS && BucketOrder(Registers(p.es, f))
  {
    hide Pool.Ok, Holds, RowHolds, Concat;
    BucketsHold(p, rules, d);
    var cs, f := Buckets(p, d), Flat(p, d);
    forall i | 0 <= i < |f|
      ensures f[i] < |p.es| && p.es[f[i]].regnum in rules[d] && rules[d][p.es[f[i]].regnum] == p.es[f[i]].Rule()
    {
      ConcatHolds(p.es, cs, 0, rules[d], i);
    }
    var regs := Registers(p.es, f);
    forall i, j | 0 <= i < j < |f| ensures regs[i] != regs[j] {
      ConcatDistinct(p.es, cs, 0, rules[d], i, j);
    }
    forall i, j | 0 <= i < j < |f| ensures regs[i] % BUCKET_COUNT <= regs[j] % BUCKET_COUNT {
      ConcatInOrder(p.es, cs, 0, rules[d], i, j);
    }
    forall r | r in rules[d] ensures r in regs {
      var i := ConcatCovers(p.es, cs, 0, rules[d], r);
      assert regs[i] == r;
    }
    assert Elements(regs) == rules[d].Keys;
    DistinctCount(regs);
    EntriesBounded(p.es, f);
  }

  /** The registers of the table at depth `d`, in enumeration order. */
  ghost function RuleRegisters(p: Pool, rules: seq<Rules>, d: nat): (regs: seq<RegNum>)
    requires p.Ok(rules) && d < |rules|
    ensures Distinct(regs) && Elements(regs) == rules[d].Keys && |regs| == |rules[d]| <= MAX_REGISTERS
    ensures BucketOrder(regs)
  {
    hide Pool.Ok, Holds, Flat, Distinct, Elements, BucketOrder;
    EnumerationComplete(p, rules, d);
    Registers(p.es, Flat(p, d))
  }

  lemma RuleCountBounded(p: Pool, rules: seq<Rules>, d: nat)
    requires p.Ok(rules) && d < |rules|
    ensures |rules[d]| <= MAX_REGISTERS
  {
    hide Pool.Ok, Holds, RowHolds, Concat, Buckets;
    EnumerationComplete(p, rules, d);
  }

  /** Entries with distinct registers are distinct entries, so there are at most 100 of them. */
  lemma EntriesBounded(es: seq<Entry>, f: seq<nat>)
    requires |es| == MAX_REGISTERS && (forall i :: 0 <= i < |f| ==> f[i] < |es|) && Distinct(Registers(es, f))
    ensures |f| <= MAX_REGISTERS
  {
    forall i, j | 0 <= i < j < |f| ensures f[i] != f[j] {
      assert Registers(es, f)[i] != Registers(es, f)[j];
    }
    DistinctBounded(f, MAX_REGISTERS);
  }

  /** A free entry is in no bucket. */
  lemma {:induction false} NotConcat(cs: seq<seq<nat>>, e: nat)
    requires forall i :: 0 <= i < |cs| ==> e !in cs[i]
    ensures e !in Concat(cs)
  {
    if cs != [] {
      NotConcat(cs[1..], e);
    }
  }

  lemma FreeNotInBuckets(p: Pool, rules: seq<Rules>, d: nat)
    requires p.Ok(rules) && d < |rules| && |p.chains| == TABLE_SLOTS + 1 && p.chains[FREE] != []
    ensures p.chains[FREE][0] !in Flat(p, d)
  {
    hide Linked, Holds, Concat, AllLinked, AllHeld;
    var e := p.chains[FREE][0];
    forall i | 0 <= i < BUCKET_COUNT ensures e !in Buckets(p, d)[i] {
      var c := p.chains[BUCKET_COUNT * d + i];
      forall j | 0 <= j < |c| ensures c[j] != e {
        ChainsDisjoint(p, BUCKET_COUNT * d + i, j, FREE, 0);
      }
    }
    NotConcat(Buckets(p, d), e);
  }

  lemma BucketsAppended(p: Pool, rules: seq<Rules>, slot: nat, r: RegNum, rule: RegRule)
    requires CanAppend(p, rules, slot, r)
    requires |p.chains| == |p.heads| == TABLE_SLOTS + 1 && |p.es| == MAX_REGISTERS == |p.owner| && slot < FREE
    requires p.chains[FREE] != [] && p.chains[FREE][0] < MAX_REGISTERS
    requires forall k :: 0 <= k < |p.chains[slot]| ==> p.chains[slot][k] < MAX_REGISTERS
    ensures
      var d, k := slot / BUCKET_COUNT, slot % BUCKET_COUNT;
      var cs := Buckets(p, d);
      Buckets(p.Appended(slot, r, rule), d) == cs[k := cs[k] + [p.chains[FREE][0]]]
  {
    hide Pool.Ok;
  }

  lemma RegnumsAppended(p: Pool, rules: seq<Rules>, slot: nat, r: RegNum, rule: RegRule)
    requires CanAppend(p, rules, slot, r)
    requires |p.chains| == |p.heads| == TABLE_SLOTS + 1 && |p.es| == MAX_REGISTERS == |p.owner| && slot < FREE
    requires p.chains[FREE] != [] && p.chains[FREE][0] < MAX_REGISTERS
    requires forall k :: 0 <= k < |p.chains[slot]| ==> p.chains[slot][k] < MAX_REGISTERS
    ensures
      var e, es' := p.chains[FREE][0], p.Appended(slot, r, rule).es;
      && |es'| == |p.es| && es'[e].regnum == r
      && forall i :: 0 <= i < |p.es| && i != e ==> es'[i].regnum == p.es[i].regnum
  {
    hide Linked, Holds, AllLinked, AllHeld;
    var c := p.chains[slot];
    if c != [] {
      ChainsDisjoint(p, slot, |c| - 1, FREE, 0);
    }
  }

  /** A new register goes to the end of its bucket; the others stay in their order. */
  lemma EnumerationAppended(p: Pool, rules: seq<Rules>, slot: nat, r: RegNum, rule: RegRule)
    requires CanAppend(p, rules, slot, r)
    ensures slot < FREE && |p.chains| == |p.heads| == TABLE_SLOTS + 1 && |p.es| == MAX_REGISTERS == |p.owner|
    ensures p.chains[FREE][0] < MAX_REGISTERS && forall k :: 0 <= k < |p.chains[slot]| ==>
      p.chains[slot][k] < MAX_REGISTERS
    ensures
      var d := slot / BUCKET_COUNT;
      var rules' := rules[d := WithRule(rules[d], r, rule)];
      && p.Appended(slot, r, rule).Ok(rules')
      && RuleRegisters(p.Appended(slot, r, rule), rules', d) == Inserted(RuleRegisters(p, rules, d), r)
  {
    hide Pool.Ok, Pool.Appended, Pool.Stale, RowHolds, Concat, Inserted, InTable, Registers;
    CanAppendBounds(p, rules, slot, r);
    var d, k, e := slot / BUCKET_COUNT, slot % BUCKET_COUNT, p.chains[FREE][0];
    AppendKeepsOk(p, rules, slot, r, rule);
    BucketsHold(p, rules, d);
    BucketsAppended(p, rules, slot, r, rule);
    RegnumsAppended(p, rules, slot, r, rule);
    FreeNotInBuckets(p, rules, d);
    FlatInTable(p, rules, d);
    AppendedRegisters(p.es, p.Appended(slot, r, rule).es, Buckets(p, d), rules[d], k, e, r);
  }

  lemma FlatInTable(p: Pool, rules: seq<Rules>, d: nat)
    requires p.Ok(rules) && d < |rules|
    ensures |p.chains| == TABLE_SLOTS + 1 && d < MAX_STATES && InTable(p.es, Flat(p, d))
  {
    hide Pool.Ok, RowHolds, Concat, Buckets;
    EnumerationComplete(p, rules, d);
  }

  lemma RegnumsRewritten(p: Pool, e: nat, rule: RegRule)
    requires e < |p.es|
    ensures
      var es' := p.Rewritten(e, rule).es;
      |es'| == |p.es| && forall i :: 0 <= i < |p.es| ==> es'[i].regnum == p.es[i].regnum
  {
  }

  lemma SameRegisters(es: seq<Entry>, es': seq<Entry>, f: seq<nat>)
    requires |es'| == |es| && (forall i :: 0 <= i < |es| ==> es'[i].regnum == es[i].regnum) && InTable(es, f)
    ensures InTable(es', f) && Registers(es', f) == Registers(es, f)
  {
  }

  /** Overwriting a rule in place changes no order. */
  lemma EnumerationRewritten(p: Pool, rules: seq<Rules>, slot: nat, k: nat, r: RegNum, rule: RegRule)
    requires FoundAt(p, rules, slot, k, r)
    ensures |p.chains| == TABLE_SLOTS + 1 && slot < |p.chains| && k < |p.chains[slot]| && p.chains[slot][k] < |p.es|
    ensures
      var d := slot / BUCKET_COUNT;
      var p', rules' := p.Rewritten(p.chains[slot][k], rule), rules[d := WithRule(rules[d], r, rule)];
      p'.Ok(rules') && RuleRegisters(p', rules', d) == RuleRegisters(p, rules, d)
  {
    hide Pool.Ok, Pool.Rewritten, Pool.Stale, RowHolds, Concat, InTable, Registers;
    var d := slot / BUCKET_COUNT;
    FlatInTable(p, rules, d);
    RewriteKeepsOk(p, rules, slot, k, r, rule);
    RegnumsRewritten(p, p.chains[slot][k], rule);
    ChainsRewritten(p, p.chains[slot][k], rule);
    SameRegisters(p.es, p.Rewritten(p.chains[slot][k], rule).es, Flat(p, d));
  }

  lemma ChainsRewritten(p: Pool, e: nat, rule: RegRule)
    requires e < |p.es|
    ensures p.Rewritten(e, rule).chains == p.chains
  {
  }
}

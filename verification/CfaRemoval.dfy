/**
 * The chain walk of `remove_register`, one iteration at a time. The source does not leave the loop at its match: it
 * goes on from the removed entry, whose `next` by then points at the free list. This module shows what the walk does
 * on every table: it removes the rule and ends, except that it never ends when a free entry still carries the
 * register number.
 */
module CfaRemoval {
  import opened Common
  import opened CfaTable
  import opened CfaPool

  /** The variables of the loop. An index of 100 or more, normally `INVALID`, stands for a null pointer. */
  datatype Walk = Walk(es: seq<Entry>, head: uint8, free: uint8, count: uint8, entry: nat, idx: uint8)

  function Start(es: seq<Entry>, head: uint8, free: uint8, count: uint8): Walk {
    Walk(es, head, free, count, INVALID, head)
  }

  predicate Ended(w: Walk) {
    w.idx >= |w.es|
  }

  /** One iteration of the loop body. */
  function Step(w: Walk, r: RegNum): Walk {
    if Ended(w) then w else
      var prev := w.entry;
      var e := w.idx;
      if w.es[e].regnum != r then
        w.(entry := e, idx := w.es[e].next)
      else
        var es1 := if prev < |w.es| then w.es[prev := w.es[prev].(next := w.es[e].next)] else w.es;
        var es2 := es1[e := es1[e].(next := w.free)];
        Walk(es2, if prev < |w.es| then w.head else w.es[e].next, e, (w.count - 1) % 0x100, e, es2[e].next)
  }

  function Run(w: Walk, r: RegNum, n: nat): Walk {
    if n == 0 then w else Step(Run(w, r, n - 1), r)
  }

  lemma {:induction false} RunPlus(w: Walk, r: RegNum, m: nat, n: nat)
    ensures Run(w, r, m + n) == Run(Run(w, r, m), r, n)
  {
    hide Step;
    if n > 0 {
      RunPlus(w, r, m, n - 1);
    }
  }

  lemma RunNone(w: Walk, r: RegNum, c: seq<nat>)
    requires Linked(w.es, w.idx, c)
    ensures Run(w, r, 0) == w && w.idx == if c == [] then INVALID else c[0]
  {
  }

  /** Over entries of other registers the walk only moves its cursor. */
  lemma {:induction false} WalkPast(w: Walk, r: RegNum, c: seq<nat>, n: nat)
    requires Linked(w.es, w.idx, c) && n <= |c| && |w.es| == MAX_REGISTERS
    requires forall k :: 0 <= k < n ==> w.es[c[k]].regnum != r
    ensures Run(w, r, n) == w.(entry := if n == 0 then w.entry else c[n - 1], idx := if n < |c| then c[n] else INVALID)
  {
    hide Run, Linked;
    if n > 0 {
      WalkPast(w, r, c, n - 1);
      RunStep(w, r, n - 1);
      LinkedAt(w.es, w.idx, c, n - 1);
    } else {
      RunNone(w, r, c);
    }
  }

  /** The iteration that meets the register moves its entry to the free list, and sets out along the old free list. */
  lemma WalkToMatch(es: seq<Entry>, head: uint8, free: uint8, count: uint8, c: seq<nat>, k: nat, r: RegNum)
    requires Linked(es, head, c) && |es| == MAX_REGISTERS && k < |c| && es[c[k]].regnum == r
    requires forall j :: 0 <= j < k ==> es[c[j]].regnum != r
    ensures
      var es1 := if k == 0 then es else es[c[k - 1] := es[c[k - 1]].(next := es[c[k]].next)];
      Run(Start(es, head, free, count), r, k + 1) ==
        Walk(es1[c[k] := es1[c[k]].(next := free)], if k == 0 then es[c[k]].next else head, c[k],
             (count - 1) % 0x100, c[k], free)
  {
    hide Run, Linked;
    WalkPast(Start(es, head, free, count), r, c, k);
    RunStep(Start(es, head, free, count), r, k);
    LinkedAt(es, head, c, k);
    if k > 0 {
      LinkedAt(es, head, c, k - 1);
    }
  }

  lemma RunStep(w: Walk, r: RegNum, n: nat)
    ensures Run(w, r, n + 1) == Step(Run(w, r, n), r)
  {
  }

  lemma LinkedAt(es: seq<Entry>, head: nat, c: seq<nat>, k: nat)
    requires Linked(es, head, c) && k < |c|
    ensures c[k] < |es| <= MAX_REGISTERS && es[c[k]].next == Successor(c, k) && (k == 0 ==> head == c[0])
  {
  }

  lemma StepAtMatch(p: Pool, rules: seq<Rules>, slot: nat, k: nat, r: RegNum, count: uint8)
    requires FoundAt(p, rules, slot, k, r)
    ensures
      var w := Start(p.es, p.heads[slot], p.heads[FREE], count);
      var p' := p.Freed(slot, k);
      var e := p.chains[slot][k];
      Run(w, r, k + 1) == Walk(p'.es, p'.heads[slot], e, (count - 1) % 0x100, e, p.heads[FREE])
  {
    hide Holds, Linked;
    var c := p.chains[slot];
    assert Linked(p.es, p.heads[slot], c);
    forall j | 0 <= j < k ensures p.es[c[j]].regnum != r {
      OncePerChain(p, rules, slot, j, k);
    }
    WalkToMatch(p.es, p.heads[slot], p.heads[FREE], count, c, k, r);
  }

  lemma OncePerChain(p: Pool, rules: seq<Rules>, slot: nat, j: nat, k: nat)
    requires p.Ok(rules) && slot < BUCKET_COUNT * |rules| && j < k < |p.chains[slot]|
    ensures p.es[p.chains[slot][j]].regnum != p.es[p.chains[slot][k]].regnum
  {
    assert Holds(p.es, p.chains[slot], slot % BUCKET_COUNT, rules[slot / BUCKET_COUNT]);
  }

  /** Where `r` sits in its bucket. */
  lemma Locate(p: Pool, rules: seq<Rules>, slot: nat, r: RegNum) returns (k: nat)
    requires p.Ok(rules) && slot < BUCKET_COUNT * |rules| && slot % BUCKET_COUNT == r % BUCKET_COUNT
    requires r in rules[slot / BUCKET_COUNT]
    ensures FoundAt(p, rules, slot, k, r)
  {
    assert Holds(p.es, p.chains[slot], slot % BUCKET_COUNT, rules[slot / BUCKET_COUNT]);
    assert Occurs(p.es, p.chains[slot], r);
    k :| 0 <= k < |p.chains[slot]| && p.es[p.chains[slot][k]].regnum == r;
  }

  /** After the match the walk runs along the old free list, past entries of other registers. */
  lemma AlongFreeList(p: Pool, rules: seq<Rules>, slot: nat, k: nat, r: RegNum, count: uint8, n: nat)
    requires FoundAt(p, rules, slot, k, r) && n <= |p.chains[FREE]|
    requires forall j :: 0 <= j < n ==> p.Stale()[j] != r
    ensures
      var w := Start(p.es, p.heads[slot], p.heads[FREE], count);
      var p' := p.Freed(slot, k);
      var e := p.chains[slot][k];
      var f := p.chains[FREE];
      Run(w, r, k + 1 + n) ==
        Walk(p'.es, p'.heads[slot], e, (count - 1) % 0x100, if n == 0 then e else f[n - 1], if n < |f| then f[n] else INVALID)
  {
    hide Holds, Linked, Run;
    var w := Start(p.es, p.heads[slot], p.heads[FREE], count);
    var p' := p.Freed(slot, k);
    var f := p.chains[FREE];
    StepAtMatch(p, rules, slot, k, r, count);
    FreedKeepsOk(p, rules, slot, k, r);
    FreeListAfter(p, rules, slot, k, r);
    forall j | 0 <= j < n ensures p'.es[f[j]].regnum != r {
      assert p.Stale()[j] == p'.es[f[j]].regnum;
    }
    WalkPast(Run(w, r, k + 1), r, f, n);
    RunPlus(w, r, k + 1, n);
  }

  lemma FreeListAfter(p: Pool, rules: seq<Rules>, slot: nat, k: nat, r: RegNum)
    requires FoundAt(p, rules, slot, k, r)
    ensures
      var p' := p.Freed(slot, k);
      var f := p.chains[FREE];
      Linked(p'.es, p.heads[FREE], f) && forall j :: 0 <= j < |f| ==> p'.es[f[j]].regnum == p.Stale()[j]
  {
    hide Holds, Linked;
    assert Linked(p.es, p.heads[FREE], p.chains[FREE]);
    LinkedFrame(p.es, p.Freed(slot, k).es, p.heads[FREE], p.chains[FREE]);
  }

  /** The walk of `remove_register(r)` over bucket `slot` of a pool. */
  ghost function Removal(p: Pool, slot: nat, r: RegNum, count: uint8, n: nat): Walk
    requires slot < FREE && |p.heads| == TABLE_SLOTS + 1
  {
    Run(Start(p.es, p.heads[slot], p.heads[FREE], count), r, n)
  }

  ghost predicate InBucket(p: Pool, rules: seq<Rules>, slot: nat, r: RegNum) {
    p.Ok(rules) && slot < BUCKET_COUNT * |rules| && slot % BUCKET_COUNT == r % BUCKET_COUNT
  }

  /** A register without a rule: the walk passes the whole bucket and changes nothing. */
  lemma RemovalOfAbsent(p: Pool, rules: seq<Rules>, slot: nat, r: RegNum, count: uint8)
    requires InBucket(p, rules, slot, r) && r !in rules[slot / BUCKET_COUNT]
    ensures
      var n := |p.chains[slot]|;
      && Ended(Removal(p, slot, r, count, n))
      && (forall m :: 0 <= m < n ==> !Ended(Removal(p, slot, r, count, m)))
      && Removal(p, slot, r, count, n) ==
           Start(p.es, p.heads[slot], p.heads[FREE], count).(entry := Removal(p, slot, r, count, n).entry, idx := INVALID)
  {
    hide Holds, Linked, Run;
    var c := p.chains[slot];
    assert Linked(p.es, p.heads[slot], c);
    forall k | 0 <= k < |c| ensures p.es[c[k]].regnum != r {
      if p.es[c[k]].regnum == r {
        FoundInChain(p, rules, slot, k, r);
      }
    }
    forall m: nat | m <= |c|
      ensures Ended(Removal(p, slot, r, count, m)) <==> m == |c|
    {
      WalkPast(Start(p.es, p.heads[slot], p.heads[FREE], count), r, c, m);
    }
    WalkPast(Start(p.es, p.heads[slot], p.heads[FREE], count), r, c, |c|);
  }

  /** A register with a rule, and no free entry that still carries its number: the entry is freed and the walk ends. */
  lemma RemovalOfPresent(p: Pool, rules: seq<Rules>, slot: nat, k: nat, r: RegNum, count: uint8)
    requires FoundAt(p, rules, slot, k, r) && r !in p.Stale()
    ensures
      var n := k + 1 + |p.chains[FREE]|;
      var w := Removal(p, slot, r, count, n);
      var p' := p.Freed(slot, k);
      && Ended(w)
      && (forall m :: 0 <= m < n ==> !Ended(Removal(p, slot, r, count, m)))
      && w.idx == INVALID
      && w.es == p'.es && w.head == p'.heads[slot] && w.free == p'.heads[FREE] && w.count == (count - 1) % 0x100
  {
    hide Holds, Linked, Run;
    var c, f := p.chains[slot], p.chains[FREE];
    assert Linked(p.es, p.heads[slot], c);
    forall j | 0 <= j < k ensures p.es[c[j]].regnum != r {
      OncePerChain(p, rules, slot, j, k);
    }
    forall m: nat | m <= k + |f|
      ensures !Ended(Removal(p, slot, r, count, m))
    {
      if m <= k {
        WalkPast(Start(p.es, p.heads[slot], p.heads[FREE], count), r, c, m);
      } else {
        AlongFreeList(p, rules, slot, k, r, count, m - k - 1);
      }
    }
    AlongFreeList(p, rules, slot, k, r, count, |f|);
  }

  /** What a removal that ends leaves behind, after how many iterations. */
  lemma RemovalOutcome(p: Pool, rules: seq<Rules>, slot: nat, r: RegNum, count: uint8) returns (steps: nat, q: Pool)
    requires InBucket(p, rules, slot, r) && !(r in rules[slot / BUCKET_COUNT] && r in p.Stale())
    ensures
      var d := slot / BUCKET_COUNT;
      var present := r in rules[d];
      var w := Removal(p, slot, r, count, steps);
      && w.idx == INVALID
      && (forall m :: 0 <= m < steps ==> !Ended(Removal(p, slot, r, count, m)))
      && q.Ok(if present then rules[d := WithoutRule(rules[d], r)] else rules)
      && q.Stale() == (if present then [r] + p.Stale() else p.Stale())
      && w.es == q.es && q.heads == p.heads[slot := w.head][FREE := w.free]
      && w.count == (if present then (count - 1) % 0x100 else count)
  {
    hide Holds, Linked, Run;
    if r !in rules[slot / BUCKET_COUNT] {
      RemovalOfAbsent(p, rules, slot, r, count);
      steps, q := |p.chains[slot]|, p;
    } else {
      var k := Locate(p, rules, slot, r);
      RemovalOfPresent(p, rules, slot, k, r, count);
      FreedKeepsOk(p, rules, slot, k, r);
      steps, q := k + 1 + |p.chains[FREE]|, p.Freed(slot, k);
    }
  }

  /** The same, for the walk from its start. */
  lemma WalkOutcome(p: Pool, rules: seq<Rules>, slot: nat, r: RegNum, count: uint8) returns (steps: nat, q: Pool)
    requires InBucket(p, rules, slot, r) && !(r in rules[slot / BUCKET_COUNT] && r in p.Stale())
    ensures
      var present := r in rules[slot / BUCKET_COUNT];
      var start := Start(p.es, p.heads[slot], p.heads[FREE], count);
      var last := Run(start, r, steps);
      && last.idx == INVALID
      && (forall m :: 0 <= m < steps ==> !Ended(Run(start, r, m)))
      && q.Ok(if present then rules[slot / BUCKET_COUNT := WithoutRule(rules[slot / BUCKET_COUNT], r)] else rules)
      && q.Stale() == (if present then [r] + p.Stale() else p.Stale())
      && last.es == q.es && q.heads == p.heads[slot := last.head][FREE := last.free]
      && last.count == (if present then (count - 1) % 0x100 else count)
  {
    hide Run, Partition, AllLinked, AllHeld;
    steps, q := RemovalOutcome(p, rules, slot, r, count);
    forall m | 0 <= m < steps ensures !Ended(Run(Start(p.es, p.heads[slot], p.heads[FREE], count), r, m)) {
      assert !Ended(Removal(p, slot, r, count, m));
    }
  }

  /** The two entries that a diverging walk swaps at the head of the free list for ever. */
  ghost predicate PingPong(w: Walk, r: RegNum) {
    && |w.es| == MAX_REGISTERS
    && w.entry == w.free < |w.es| && w.idx < |w.es| && w.idx != w.entry
    && w.es[w.entry].regnum == r && w.es[w.idx].regnum == r && w.es[w.entry].next == w.idx
  }

  lemma {:induction false} PingPongForever(w: Walk, r: RegNum, n: nat)
    requires PingPong(w, r)
    ensures PingPong(Run(w, r, n), r)
  {
    if n > 0 {
      PingPongForever(w, r, n - 1);
    }
  }

  /** The first stale position of the free list. */
  lemma {:induction false} FirstIndex(s: seq<RegNum>, r: RegNum) returns (j: nat)
    requires r in s
    ensures j < |s| && s[j] == r && r !in s[..j]
  {
    if s[0] == r {
      j := 0;
    } else {
      j := FirstIndex(s[1..], r);
      assert s[..j + 1] == [s[0]] + s[1..][..j];
      j := j + 1;
    }
  }

  /** The walk comes to the first free entry that carries the number of the removed register. */
  lemma AtStaleEntry(p: Pool, rules: seq<Rules>, slot: nat, k: nat, r: RegNum, count: uint8, j: nat)
    requires FoundAt(p, rules, slot, k, r) && j < |p.Stale()| && p.Stale()[j] == r
    requires forall i :: 0 <= i < j ==> p.Stale()[i] != r
    ensures PingPong(Step(Removal(p, slot, r, count, k + 1 + j), r), r)
  {
    hide Holds, Linked, Run;
    AlongFreeList(p, rules, slot, k, r, count, j);
    FreeListAfter(p, rules, slot, k, r);
    ChainsDisjoint(p, slot, k, FREE, j);
    MeetingStaleEntry(Removal(p, slot, r, count, k + 1 + j), r);
  }

  /** A free entry still carries the number of the removed register: no number of iterations ends the walk. */
  lemma RemovalDivergence(p: Pool, rules: seq<Rules>, slot: nat, k: nat, r: RegNum, count: uint8, n: nat)
    requires FoundAt(p, rules, slot, k, r) && r in p.Stale()
    ensures !Ended(Removal(p, slot, r, count, n))
  {
    hide Holds, Linked, Run;
    var c, f, p' := p.chains[slot], p.chains[FREE], p.Freed(slot, k);
    var j := FirstIndex(p.Stale(), r);
    forall i | 0 <= i < j ensures p.Stale()[i] != r {
      assert p.Stale()[i] in p.Stale()[..j];
    }
    if n <= k {
      assert Linked(p.es, p.heads[slot], c);
      forall i | 0 <= i < n ensures p.es[c[i]].regnum != r {
        OncePerChain(p, rules, slot, i, k);
      }
      WalkPast(Start(p.es, p.heads[slot], p.heads[FREE], count), r, c, n);
    } else if n <= k + 1 + j {
      AlongFreeList(p, rules, slot, k, r, count, n - k - 1);
    } else {
      AtStaleEntry(p, rules, slot, k, r, count, j);
      PingPongAfter(Start(p.es, p.heads[slot], p.heads[FREE], count), r, k + 1 + j, n);
    }
  }

  lemma PingPongAfter(w: Walk, r: RegNum, i: nat, n: nat)
    requires i < n && PingPong(Step(Run(w, r, i), r), r)
    ensures !Ended(Run(w, r, n))
  {
    hide Step, Run;
    RunStep(w, r, i);
    RunPlus(w, r, i + 1, n - i - 1);
    PingPongForever(Run(w, r, i + 1), r, n - i - 1);
  }

  lemma RunOne(w: Walk, r: RegNum)
    ensures Run(w, r, 1) == Step(w, r)
  {
    assert Run(w, r, 0) == w;
  }

  lemma MeetingStaleEntry(w: Walk, r: RegNum)
    requires |w.es| == MAX_REGISTERS && w.free < |w.es| && w.idx < |w.es| && w.idx != w.free
    requires w.es[w.free].regnum == r && w.es[w.idx].regnum == r
    ensures PingPong(Step(w, r), r)
  {
  }

  /**
   * The walk of `remove_register` ends if and only if the register has no rule in the current table or no free entry
   * still carries its number.
   */
  lemma RemovalEndsIff(p: Pool, rules: seq<Rules>, slot: nat, r: RegNum, count: uint8)
    requires InBucket(p, rules, slot, r)
    ensures (exists n: nat :: Ended(Removal(p, slot, r, count, n))) <==>
      !(r in rules[slot / BUCKET_COUNT] && r in p.Stale())
  {
    hide Holds, Linked, Run;
    if r !in rules[slot / BUCKET_COUNT] {
      RemovalOfAbsent(p, rules, slot, r, count);
      assert Ended(Removal(p, slot, r, count, |p.chains[slot]|));
    } else {
      var k := Locate(p, rules, slot, r);
      if r in p.Stale() {
        forall n: nat ensures !Ended(Removal(p, slot, r, count, n)) {
          RemovalDivergence(p, rules, slot, k, r, count, n);
        }
      } else {
        RemovalOfPresent(p, rules, slot, k, r, count);
        assert Ended(Removal(p, slot, r, count, k + 1 + |p.chains[FREE]|));
      }
    }
  }

  /** Six calls on a new table, with no other copy of 1 or 2 left in the pool, reach a removal that never ends. */
  lemma DivergenceIsReachable(t: Table)
    requires t.rows == [Row(map[], Undefined)] && |t.stale| == MAX_REGISTERS && 1 !in t.stale && 2 !in t.stale
    ensures
      var rule := RegRule(SameValue, 0);
      var t1 := t.SetRegister(1, rule).SetRegister(2, rule);
      && !t1.RemovalDiverges(1)
      && !t1.RemoveRegister(1).RemovalDiverges(2)
      && t1.RemoveRegister(1).RemoveRegister(2).SetRegister(1, rule).RemovalDiverges(1)
  {
    var rule := RegRule(SameValue, 0);
    var t1 := t.SetRegister(1, rule).SetRegister(2, rule);
    assert t1.stale == t.stale[2..];
    assert t1.RemoveRegister(1).RemoveRegister(2).stale == [2, 1] + t.stale[2..];
  }
}

/** `dwarf_cfa_state_iterator`: enumerates the rules of the current table through the buckets and their chains. */
module CfaIteratorClass {
  import opened Common
  import opened CfaTable
  import opened CfaPool
  import opened CfaEnumeration
  import opened CfaStateClass

  /**
   * The iterator stands in bucket `b`, behind position `pos` of its chain if `cur` is an entry; `rest` is still to
   * come.
   */
  ghost predicate StandsAt(cs: seq<seq<nat>>, b: nat, cur: nat, pos: nat, rest: seq<nat>) {
    && b <= |cs|
    && if cur == INVALID then rest == Concat(cs[b..])
       else b < |cs| && pos < |cs[b]| && cs[b][pos] == cur && rest == cs[b][pos + 1..] + Concat(cs[b + 1..])
  }

  ghost predicate Bounded(cs: seq<seq<nat>>) {
    forall b, k :: 0 <= b < |cs| && 0 <= k < |cs[b]| ==> cs[b][k] < MAX_REGISTERS
  }

  /** Leaving position `pos` of a chain: either the next entry of the chain comes next, or the next bucket is due. */
  lemma AfterEntry(cs: seq<seq<nat>>, b: nat, cur: nat, pos: nat, rest: seq<nat>)
    requires Bounded(cs) && StandsAt(cs, b, cur, pos, rest) && cur != INVALID
    ensures pos + 1 == |cs[b]| ==> StandsAt(cs, b + 1, INVALID, 0, rest)
    ensures pos + 1 < |cs[b]| ==>
              rest != [] && rest[0] == cs[b][pos + 1] && StandsAt(cs, b, rest[0], pos + 1, rest[1..])
  {
    if pos + 1 < |cs[b]| {
      assert rest[1..] == cs[b][pos + 2..] + Concat(cs[b + 1..]);
    }
  }

  /** Entering a bucket: its first entry comes next, unless it is empty. */
  lemma AtBucket(cs: seq<seq<nat>>, b: nat, rest: seq<nat>)
    requires Bounded(cs) && StandsAt(cs, b, INVALID, 0, rest) && b < |cs|
    ensures cs[b] == [] ==> StandsAt(cs, b + 1, INVALID, 0, rest)
    ensures cs[b] != [] ==> rest != [] && rest[0] == cs[b][0] && StandsAt(cs, b, rest[0], 0, rest[1..])
  {
    assert cs[b..][1..] == cs[b + 1..];
    if cs[b] != [] {
      assert rest[1..] == cs[b][1..] + Concat(cs[b + 1..]);
    }
  }

  /** The bucket heads and links of the current table spell out the chains `cs`. */
  ghost predicate Links(s: CfaState, cs: seq<seq<nat>>)
    reads s, s.entries, s.tableStack
  {
    && s.tableDepth < MAX_STATES && s.entries.Length == MAX_REGISTERS && s.tableStack.Length == TABLE_SLOTS
    && |cs| == BUCKET_COUNT && Bounded(cs)
    && (forall b :: 0 <= b < BUCKET_COUNT ==>
          s.tableStack[BUCKET_COUNT * s.tableDepth + b] == if cs[b] == [] then INVALID else cs[b][0])
    && (forall b, k :: 0 <= b < BUCKET_COUNT && 0 <= k < |cs[b]| ==> s.entries[cs[b][k]].next == Successor(cs[b], k))
  }

  lemma BucketLinks(s: CfaState)
    requires s.Valid()
    ensures |s.chains| == TABLE_SLOTS + 1 && s.tableDepth < MAX_STATES
    ensures Links(s, Buckets(s.Pooled(), s.tableDepth))
  {
    hide Pool.Ok, Pool.Stale;
    var p := s.Pooled();
    FreeHead(p, s.rules);
    var cs := Buckets(p, s.tableDepth);
    forall b | 0 <= b < BUCKET_COUNT
      ensures forall k :: 0 <= k < |cs[b]| ==>
        cs[b][k] < MAX_REGISTERS && s.entries[cs[b][k]].next == Successor(cs[b], k)
      ensures s.tableStack[BUCKET_COUNT * s.tableDepth + b] == (if cs[b] == [] then INVALID else cs[b][0])
    {
      var slot := BUCKET_COUNT * s.tableDepth + b;
      ChainHead(p, s.rules, slot);
      forall k | 0 <= k < |cs[b]| ensures cs[b][k] < MAX_REGISTERS && s.entries[cs[b][k]].next == Successor(cs[b], k) {
        ChainNext(p, s.rules, slot, k);
      }
    }
  }

  class CfaStateIterator {
    const stack: CfaState
    var bucketIdx: nat
    var curEntryIdx: uint8
    ghost var position: nat
    /** How many rules have been returned so far. */
    ghost var yielded: nat
    ghost var rest: seq<nat>

    /** The chains of the iterated table, and their entries in order. */
    ghost const buckets: seq<seq<nat>>
    ghost const flat: seq<nat>

    ghost predicate Valid()
      reads this, stack.Repr
    {
      && IteratesOver(stack, buckets, flat)
      && this !in stack.Repr
      && StandsAt(buckets, bucketIdx, curEntryIdx, position, rest)
      && yielded + |rest| == |flat|
      && forall i :: 0 <= i < |rest| ==> rest[i] == flat[yielded + i]
    }

    constructor (stack: CfaState)
      requires stack.Valid()
      ensures Valid() && this.stack == stack && yielded == 0
    {
      hide CfaState.Valid;
      this.stack := stack;
      bucketIdx := 0;
      curEntryIdx := INVALID;
      yielded := 0;
      position := 0;
      BucketLinks(stack);
      buckets := Buckets(stack.Pooled(), stack.tableDepth);
      flat := Flat(stack.Pooled(), stack.tableDepth);
      rest := Flat(stack.Pooled(), stack.tableDepth);
    }

    /** The next rule, or false, and false again, when all of them have been returned. */
    method Next() returns (ok: bool, regnum: RegNum, kind: RuleKind, value: nat)
      requires Valid()
      modifies this
      ensures Valid()
      ensures ok == (old(yielded) < |stack.Enumeration()|)
      ensures ok ==> yielded == old(yielded) + 1 && regnum == stack.Enumeration()[old(yielded)]
      ensures ok ==> regnum in stack.table.Top().rules && stack.table.Top().rules[regnum] == RegRule(kind, value)
      ensures !ok ==> yielded == old(yielded)
    {
      hide CfaState.Valid, CfaState.Enumeration, IteratesOver, Links, StandsAt;
      regnum, kind, value := 0, SameValue, 0;
      IteratedLinks(stack, buckets, flat);
      ok := Advance(buckets, rest);
      if ok {
        EnumeratedRule(stack, buckets, flat, yielded);
        yielded, rest := yielded + 1, rest[1..];
        var entry := stack.entries[curEntryIdx];
        return true, entry.regnum, entry.kind, entry.value;
      }
    }

    /** Moves the cursor to the next entry of the chain, or else to the head of the next bucket in use. */
    method Advance(ghost cs: seq<seq<nat>>, ghost rest: seq<nat>) returns (ok: bool)
      requires Links(stack, cs) && StandsAt(cs, bucketIdx, curEntryIdx, position, rest)
      modifies this`bucketIdx, this`curEntryIdx, this`position
      ensures ok == (rest != [])
      ensures ok ==> curEntryIdx == rest[0] < MAX_REGISTERS && StandsAt(cs, bucketIdx, curEntryIdx, position, rest[1..])
      ensures !ok ==> StandsAt(cs, bucketIdx, curEntryIdx, position, rest)
    {
      hide Concat;
      if curEntryIdx != INVALID {
        AfterEntry(cs, bucketIdx, curEntryIdx, position, rest);
        curEntryIdx := stack.entries[curEntryIdx].next;
        position := position + 1;
        if curEntryIdx == INVALID {
          bucketIdx := bucketIdx + 1;
          position := 0;
        }
      }
      if curEntryIdx == INVALID {
        ok := FindBucket(cs, rest);
        return;
      }
      return true;
    }

    method FindBucket(ghost cs: seq<seq<nat>>, ghost rest: seq<nat>) returns (ok: bool)
      requires Links(stack, cs) && StandsAt(cs, bucketIdx, curEntryIdx, 0, rest) && curEntryIdx == INVALID
      modifies this`bucketIdx, this`curEntryIdx, this`position
      ensures ok == (rest != [])
      ensures ok ==> curEntryIdx == rest[0] < MAX_REGISTERS && StandsAt(cs, bucketIdx, curEntryIdx, position, rest[1..])
      ensures !ok ==> StandsAt(cs, bucketIdx, curEntryIdx, position, rest)
    {
      position := 0;
      while bucketIdx < BUCKET_COUNT
        invariant bucketIdx <= BUCKET_COUNT && curEntryIdx == INVALID && position == 0
        invariant StandsAt(cs, bucketIdx, INVALID, 0, rest)
      {
        AtBucket(cs, bucketIdx, rest);
        if stack.tableStack[BUCKET_COUNT * stack.tableDepth + bucketIdx] != INVALID {
          curEntryIdx := stack.tableStack[BUCKET_COUNT * stack.tableDepth + bucketIdx];
          return true;
        }
        bucketIdx := bucketIdx + 1;
      }
      return false;
    }
  }

  ghost predicate IteratesOver(s: CfaState, buckets: seq<seq<nat>>, flat: seq<nat>)
    reads s.Repr
  {
    && s.Valid()
    && |s.chains| == TABLE_SLOTS + 1
    && buckets == Buckets(s.Pooled(), s.tableDepth)
    && flat == Flat(s.Pooled(), s.tableDepth)
  }

  lemma IteratedLinks(s: CfaState, buckets: seq<seq<nat>>, flat: seq<nat>)
    requires IteratesOver(s, buckets, flat)
    ensures s.Valid() && s.entries.Length == MAX_REGISTERS && Links(s, buckets) && |s.Enumeration()| == |flat|
  {
    hide Pool.Ok, Pool.Stale, Links, Concat;
    BucketLinks(s);
  }

  lemma EnumeratedRule(s: CfaState, buckets: seq<seq<nat>>, flat: seq<nat>, i: nat)
    requires IteratesOver(s, buckets, flat) && i < |flat|
    ensures s.Valid() && s.entries.Length == MAX_REGISTERS && i < |s.Enumeration()| && flat[i] < MAX_REGISTERS
    ensures
      var e := s.entries[flat[i]];
      s.Enumeration()[i] == e.regnum && e.regnum in s.table.Top().rules && s.table.Top().rules[e.regnum] == e.Rule()
  {
    hide Pool.Ok, Pool.Stale, Flat;
    EnumerationComplete(s.Pooled(), s.rules, s.tableDepth);
    RowsMatchTop(s.table, s.rules, s.registerCount[..], s.cfaValue[..]);
  }
}

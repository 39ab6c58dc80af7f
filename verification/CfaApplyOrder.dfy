/**
 * When the order in which `apply_state` meets the rules of a row shows in the caller's registers. The iterator walks
 * the buckets one after the other, so only rules of one bucket can be met in more than one order.
 */
module CfaApplyOrder {
  import opened Common
  import opened CfaTable
  import opened CfaEnumeration
  import opened CfaApply

  /** The registers that a rule sets: its own, and for the return address the instruction pointer. */
  predicate Writes(m: Target, r: RegNum, p: PlReg) {
    m.RegisterFor(r) == Some(p) || (r == m.returnAddressRegister && m.RegisterFor(r).Some? && p == REG_IP)
  }

  /** The value that a rule gives to all of them, if it applies. */
  function Given(m: Target, now: ThreadState, cfa: nat, rules: Rules, r: RegNum): Option<nat>
    requires m.Valid() && r in rules
  {
    match m.RegisterFor(r)
    case None => None
    case Some(p) =>
      match RuleValue(m, now, cfa, p, rules[r])
      case Err(_) => None
      case Ok(v) => Some(v)
  }

  /** An order in which the iterator can meet the rules. */
  ghost predicate Lists(regs: seq<RegNum>, rules: Rules) {
    Distinct(regs) && BucketOrder(regs) && forall r :: r in regs <==> r in rules
  }

  /** Every rule has a register and a value. */
  ghost predicate AllGiven(m: Target, now: ThreadState, cfa: nat, rules: Rules)
    requires m.Valid()
  {
    forall r :: r in rules ==> Given(m, now, cfa, rules, r).Some?
  }

  lemma RuleEffect(m: Target, now: ThreadState, cfa: nat, rules: Rules, r: RegNum, s: ThreadState)
    requires m.Valid() && r in rules && Given(m, now, cfa, rules, r).Some?
    ensures
      var a := ApplyRule(m, now, cfa, r, rules[r], s);
      && a.Ok?
      && (forall p :: p in a.value <==> p in s || Writes(m, r, p))
      && (forall p :: p in a.value ==>
            a.value[p] == if Writes(m, r, p) then Given(m, now, cfa, rules, r).value else s[p])
  {
    hide RuleValue, Target.RegisterFor;
  }

  /** The last rule that sets `p`. */
  function LastWriter(m: Target, regs: seq<RegNum>, p: PlReg): Option<RegNum> {
    if regs == [] then None
    else
      var n := |regs| - 1;
      if Writes(m, regs[n], p) then Some(regs[n]) else LastWriter(m, regs[..n], p)
  }

  /** Every register has the value of the last rule that sets it, or else the one from before. */
  lemma {:induction false} LastRuleWins(m: Target, now: ThreadState, cfa: nat, rules: Rules, regs: seq<RegNum>, p: PlReg)
    requires m.Valid() && AllGiven(m, now, cfa, rules) && forall r :: r in regs ==> r in rules
    ensures LastWriter(m, regs, p).Some? ==> LastWriter(m, regs, p).value in rules
    ensures
      var a := ApplyInOrder(m, now, cfa, rules, regs, Prepared(m, now, cfa));
      var w := LastWriter(m, regs, p);
      && a.Ok?
      && Lookup(a.value, p) == if w.Some? then Given(m, now, cfa, rules, w.value) else Lookup(Prepared(m, now, cfa), p)
  {
    hide ApplyRule, Given, Writes, Prepared;
    if regs != [] {
      var n := |regs| - 1;
      LastRuleWins(m, now, cfa, rules, regs[..n], p);
      RuleEffect(m, now, cfa, rules, regs[n], ApplyInOrder(m, now, cfa, rules, regs[..n], Prepared(m, now, cfa)).value);
    }
  }

  /** In bucket order the last rule for `p` is in the last bucket that has one. */
  lemma {:induction false} LastInLastBucket(m: Target, regs: seq<RegNum>, p: PlReg)
    requires BucketOrder(regs)
    ensures
      var w := LastWriter(m, regs, p);
      if w.None? then forall t :: t in regs ==> !Writes(m, t, p)
      else
        && w.value in regs && Writes(m, w.value, p)
        && forall t :: t in regs && Writes(m, t, p) ==> t % BUCKET_COUNT <= w.value % BUCKET_COUNT
  {
    hide Writes;
    if regs != [] {
      var n := |regs| - 1;
      LastInLastBucket(m, regs[..n], p);
      forall t | t in regs ensures t == regs[n] || (t in regs[..n] && t % BUCKET_COUNT <= regs[n] % BUCKET_COUNT) {
        var j :| 0 <= j < |regs| && regs[j] == t;
        assert j < n ==> regs[..n][j] == t;
      }
    }
  }

  lemma {:induction false} LastWriterAt(m: Target, regs: seq<RegNum>, p: PlReg, i: nat)
    requires i < |regs| && Writes(m, regs[i], p) && forall j :: i < j < |regs| ==> !Writes(m, regs[j], p)
    ensures LastWriter(m, regs, p) == Some(regs[i])
  {
    hide Writes;
    if i < |regs| - 1 {
      LastWriterAt(m, regs[..|regs| - 1], p, i);
    }
  }

  /** No rule that sets `p` is in a bucket behind that of `r`. */
  ghost predicate InLastBucket(m: Target, rules: Rules, r: RegNum, p: PlReg) {
    forall t :: t in rules && Writes(m, t, p) ==> t % BUCKET_COUNT <= r % BUCKET_COUNT
  }

  /** Of the rules that set one register, those in the last bucket that has any give it one value. */
  ghost predicate Consistent(m: Target, now: ThreadState, cfa: nat, rules: Rules)
    requires m.Valid()
  {
    forall q, r, p ::
      (q in rules && r in rules && Writes(m, q, p) && Writes(m, r, p) && InLastBucket(m, rules, q, p)
       && InLastBucket(m, rules, r, p)) ==>
      Given(m, now, cfa, rules, q) == Given(m, now, cfa, rules, r)
  }

  /** All orders that the iterator can produce lead to one result. */
  ghost predicate OrderFree(m: Target, now: ThreadState, cfa: nat, rules: Rules)
    requires m.Valid()
  {
    forall regs, other :: Lists(regs, rules) && Lists(other, rules) ==>
      ApplyInOrder(m, now, cfa, rules, regs, Prepared(m, now, cfa)) ==
      ApplyInOrder(m, now, cfa, rules, other, Prepared(m, now, cfa))
  }

  lemma SameAt(m: Target, now: ThreadState, cfa: nat, rules: Rules, regs: seq<RegNum>, other: seq<RegNum>, p: PlReg)
    requires m.Valid() && AllGiven(m, now, cfa, rules) && Consistent(m, now, cfa, rules)
    requires Lists(regs, rules) && Lists(other, rules)
    ensures
      var a := ApplyInOrder(m, now, cfa, rules, regs, Prepared(m, now, cfa));
      var b := ApplyInOrder(m, now, cfa, rules, other, Prepared(m, now, cfa));
      a.Ok? && b.Ok? && Lookup(a.value, p) == Lookup(b.value, p)
  {
    hide ApplyInOrder, Given, Writes, Prepared, Distinct, BucketOrder, LastWriter, AllGiven;
    LastRuleWins(m, now, cfa, rules, regs, p);
    LastRuleWins(m, now, cfa, rules, other, p);
    LastInLastBucket(m, regs, p);
    LastInLastBucket(m, other, p);
  }

  lemma ConsistentAgree(m: Target, now: ThreadState, cfa: nat, rules: Rules, regs: seq<RegNum>, other: seq<RegNum>)
    requires m.Valid() && AllGiven(m, now, cfa, rules) && Consistent(m, now, cfa, rules)
    requires Lists(regs, rules) && Lists(other, rules)
    ensures ApplyInOrder(m, now, cfa, rules, regs, Prepared(m, now, cfa)) ==
            ApplyInOrder(m, now, cfa, rules, other, Prepared(m, now, cfa))
  {
    hide ApplyInOrder, Prepared, Distinct, BucketOrder, AllGiven, Consistent, Lookup;
    SameAt(m, now, cfa, rules, regs, other, 0);
    var a := ApplyInOrder(m, now, cfa, rules, regs, Prepared(m, now, cfa)).value;
    var b := ApplyInOrder(m, now, cfa, rules, other, Prepared(m, now, cfa)).value;
    forall p ensures Lookup(a, p) == Lookup(b, p) {
      SameAt(m, now, cfa, rules, regs, other, p);
    }
    SameLookups(a, b);
  }

  lemma SameLookups(a: ThreadState, b: ThreadState)
    requires forall p :: Lookup(a, p) == Lookup(b, p)
    ensures a == b
  {
    forall p ensures (p in a <==> p in b) && (p in a && p in b ==> a[p] == b[p]) {
      assert Lookup(a, p) == Lookup(b, p);
    }
  }

  lemma {:induction false} Listing(keys: set<RegNum>) returns (regs: seq<RegNum>)
    ensures Distinct(regs) && forall r :: r in regs <==> r in keys
    decreases |keys|
  {
    if keys == {} {
      regs := [];
    } else {
      var r :| r in keys;
      regs := Listing(keys - {r});
      regs := regs + [r];
    }
  }

  function InBucket(keys: set<RegNum>, b: nat): set<RegNum> {
    set r | r in keys && r % BUCKET_COUNT == b
  }

  /** The registers of the first `n` buckets, in bucket order. */
  lemma {:induction false} BucketListing(keys: set<RegNum>, n: nat) returns (regs: seq<RegNum>)
    ensures Distinct(regs) && BucketOrder(regs) && forall r :: r in regs <==> r in keys && r % BUCKET_COUNT < n
  {
    if n == 0 {
      regs := [];
    } else {
      var before := BucketListing(keys, n - 1);
      var bucket := Listing(InBucket(keys, n - 1));
      Joined(before, bucket, n - 1);
      regs := before + bucket;
    }
  }

  lemma Joined(a: seq<RegNum>, c: seq<RegNum>, b: nat)
    requires Distinct(a) && BucketOrder(a) && forall r :: r in a ==> r % BUCKET_COUNT < b
    requires Distinct(c) && forall r :: r in c ==> r % BUCKET_COUNT == b
    ensures Distinct(a + c) && BucketOrder(a + c)
  {
    var s := a + c;
    forall i, j | 0 <= i < j < |s| ensures s[i] != s[j] && s[i] % BUCKET_COUNT <= s[j] % BUCKET_COUNT {
      if i < |a| {
        assert s[i] in a;
      } else {
        assert s[i] in c;
      }
      if j < |a| {
        assert s[j] in a;
      } else {
        assert s[j] in c;
      }
    }
  }

  lemma JoinedBehind(a: seq<RegNum>, c: seq<RegNum>, b: nat)
    requires Distinct(a) && BucketOrder(a) && forall r :: r in a ==> r % BUCKET_COUNT <= b
    requires Distinct(c) && BucketOrder(c) && forall r :: r in c ==> r % BUCKET_COUNT > b
    ensures Distinct(a + c) && BucketOrder(a + c)
  {
    var s := a + c;
    forall i, j | 0 <= i < j < |s| ensures s[i] != s[j] && s[i] % BUCKET_COUNT <= s[j] % BUCKET_COUNT {
      if i < |a| {
        assert s[i] in a;
      } else {
        assert s[i] in c;
      }
      if j < |a| {
        assert s[j] in a;
      } else {
        assert s[j] in c;
      }
    }
  }

  /** An order in which `r` is the last one of its bucket. */
  lemma LastOfBucket(rules: Rules, r: RegNum) returns (regs: seq<RegNum>, i: nat)
    requires r in rules
    ensures Lists(regs, rules) && i < |regs| && regs[i] == r
    ensures forall j :: i < j < |regs| ==> regs[j] % BUCKET_COUNT > r % BUCKET_COUNT
  {
    hide Distinct, BucketOrder;
    var b := r % BUCKET_COUNT;
    var before := BucketListing(rules.Keys, b);
    var others := Listing(InBucket(rules.Keys, b) - {r});
    var bucket := others + [r];
    Ended(others, r);
    Joined(before, bucket, b);
    var behind := BucketListing(Behind(rules.Keys, b), BUCKET_COUNT);
    JoinedBehind(before + bucket, behind, b);
    regs := before + bucket + behind;
    i := |before| + |others|;
    assert regs[i] == r;
    forall j | i < j < |regs| ensures regs[j] % BUCKET_COUNT > b {
      assert regs[j] == behind[j - i - 1] && behind[j - i - 1] in behind;
    }
  }

  function Behind(keys: set<RegNum>, b: nat): set<RegNum> {
    set r | r in keys && r % BUCKET_COUNT > b
  }

  lemma Ended(c: seq<RegNum>, r: RegNum)
    requires Distinct(c) && r !in c
    ensures Distinct(c + [r])
  {
  }

  /** In such an order `r` has its way with a register in whose last bucket it is. */
  lemma WinsAtEnd(m: Target, now: ThreadState, cfa: nat, rules: Rules, r: RegNum, p: PlReg) returns (regs: seq<RegNum>)
    requires m.Valid() && AllGiven(m, now, cfa, rules) && r in rules && Writes(m, r, p) && InLastBucket(m, rules, r, p)
    ensures Lists(regs, rules)
    ensures
      var a := ApplyInOrder(m, now, cfa, rules, regs, Prepared(m, now, cfa));
      a.Ok? && Lookup(a.value, p) == Given(m, now, cfa, rules, r)
  {
    hide ApplyInOrder, Given, Writes, Prepared, Distinct, BucketOrder, AllGiven;
    var i;
    regs, i := LastOfBucket(rules, r);
    forall j | i < j < |regs| ensures !Writes(m, regs[j], p) {
      assert regs[j] in rules;
    }
    LastWriterAt(m, regs, p, i);
    LastRuleWins(m, now, cfa, rules, regs, p);
  }

  /**
   * The exact condition: with rules that all apply, the result is the same in every order in which buckets and chains
   * can enumerate them if and only if, for every register, the rules that set it from the last bucket that has such a
   * rule give it one value.
   */
  lemma OrderFreeIff(m: Target, now: ThreadState, cfa: nat, rules: Rules)
    requires m.Valid() && AllGiven(m, now, cfa, rules)
    ensures OrderFree(m, now, cfa, rules) <==> Consistent(m, now, cfa, rules)
  {
    hide ApplyInOrder, Given, Writes, Prepared, Distinct, BucketOrder, AllGiven, InLastBucket;
    if Consistent(m, now, cfa, rules) {
      forall regs, other | Lists(regs, rules) && Lists(other, rules)
        ensures ApplyInOrder(m, now, cfa, rules, regs, Prepared(m, now, cfa)) ==
                ApplyInOrder(m, now, cfa, rules, other, Prepared(m, now, cfa))
      {
        ConsistentAgree(m, now, cfa, rules, regs, other);
      }
    } else {
      var q, r, p :| q in rules && r in rules && Writes(m, q, p) && Writes(m, r, p) && InLastBucket(m, rules, q, p)
                     && InLastBucket(m, rules, r, p) && Given(m, now, cfa, rules, q) != Given(m, now, cfa, rules, r);
      var a := WinsAtEnd(m, now, cfa, rules, q, p);
      var b := WinsAtEnd(m, now, cfa, rules, r, p);
    }
  }

  lemma RuleFails(m: Target, now: ThreadState, cfa: nat, rules: Rules, r: RegNum, s: ThreadState)
    requires m.Valid() && r in rules && Given(m, now, cfa, rules, r).None?
    ensures ApplyRule(m, now, cfa, r, rules[r], s).Err?
  {
    hide RuleValue, Target.RegisterFor;
  }

  lemma {:induction false} FailsOnTheWay(m: Target, now: ThreadState, cfa: nat, rules: Rules, regs: seq<RegNum>,
                                         r: RegNum, next: ThreadState)
    requires m.Valid() && (forall q :: q in regs ==> q in rules) && r in regs && Given(m, now, cfa, rules, r).None?
    ensures ApplyInOrder(m, now, cfa, rules, regs, next).Err?
  {
    hide ApplyRule, Given;
    var n := |regs| - 1;
    var before := ApplyInOrder(m, now, cfa, rules, regs[..n], next);
    if regs[n] != r {
      FailsOnTheWay(m, now, cfa, rules, regs[..n], r, next);
    } else if before.Ok? {
      RuleFails(m, now, cfa, rules, r, before.value);
    }
  }

  /** With a rule that does not apply, every order fails; only the error can depend on it. */
  lemma AllOrdersFail(m: Target, now: ThreadState, cfa: nat, rules: Rules, regs: seq<RegNum>)
    requires m.Valid() && !AllGiven(m, now, cfa, rules) && Lists(regs, rules)
    ensures ApplyInOrder(m, now, cfa, rules, regs, Prepared(m, now, cfa)).Err?
  {
    hide ApplyInOrder, Given, Prepared, Distinct, BucketOrder;
    var r :| r in rules && Given(m, now, cfa, rules, r).None?;
    FailsOnTheWay(m, now, cfa, rules, regs, r, Prepared(m, now, cfa));
  }

  /** Different numbers have different registers. */
  ghost predicate Injective(m: Target, rules: Rules) {
    forall q, r :: q in rules && r in rules && q != r && m.registerOf(q).Some? ==> m.registerOf(q) != m.registerOf(r)
  }

  /** A rule for the instruction pointer in the bucket of the return-address rule gives it the same value. */
  ghost predicate IpAgrees(m: Target, now: ThreadState, cfa: nat, rules: Rules)
    requires m.Valid()
  {
    forall q, ra ::
      (q in rules && ra in rules && ra == m.returnAddressRegister && q != ra && m.registerOf(q) == Some(REG_IP)
       && q % BUCKET_COUNT == ra % BUCKET_COUNT) ==>
      Given(m, now, cfa, rules, q) == Given(m, now, cfa, rules, ra)
  }

  /**
   * With a register for every number of its own, only a second rule for the instruction pointer can make the order
   * show, and only in the bucket of the return-address rule.
   */
  lemma OrderFreeIffIpAgrees(m: Target, now: ThreadState, cfa: nat, rules: Rules)
    requires m.Valid() && AllGiven(m, now, cfa, rules) && Injective(m, rules)
    ensures OrderFree(m, now, cfa, rules) <==> IpAgrees(m, now, cfa, rules)
  {
    hide OrderFree, AllGiven;
    OrderFreeIff(m, now, cfa, rules);
    OnlyIpShared(m, now, cfa, rules);
  }

  /**
   * Where the register table has no number for the instruction pointer, as on x86-64 and 64-bit ARM, the order never
   * shows.
   */
  lemma NoIpNumberOrderFree(m: Target, now: ThreadState, cfa: nat, rules: Rules)
    requires m.Valid() && AllGiven(m, now, cfa, rules) && Injective(m, rules)
    requires forall q :: q in rules ==> m.registerOf(q) != Some(REG_IP)
    ensures OrderFree(m, now, cfa, rules)
  {
    hide OrderFree, AllGiven, Injective;
    OrderFreeIffIpAgrees(m, now, cfa, rules);
  }

  /** Two rules set one register only if it is the instruction pointer and one of them is for the return address. */
  lemma SharedIsIp(m: Target, rules: Rules, q: RegNum, r: RegNum, p: PlReg)
    requires Injective(m, rules) && q in rules && r in rules && q != r && Writes(m, q, p) && Writes(m, r, p)
    ensures p == REG_IP
    ensures
      || (r == m.returnAddressRegister && m.registerOf(q) == Some(REG_IP))
      || (q == m.returnAddressRegister && m.registerOf(r) == Some(REG_IP))
  {
  }

  lemma OnlyIpShared(m: Target, now: ThreadState, cfa: nat, rules: Rules)
    requires m.Valid() && AllGiven(m, now, cfa, rules) && Injective(m, rules)
    ensures Consistent(m, now, cfa, rules) <==> IpAgrees(m, now, cfa, rules)
  {
    hide Injective;
    if Consistent(m, now, cfa, rules) {
      forall q, ra | q in rules && ra in rules && ra == m.returnAddressRegister && q != ra
                     && m.registerOf(q) == Some(REG_IP) && q % BUCKET_COUNT == ra % BUCKET_COUNT
        ensures Given(m, now, cfa, rules, q) == Given(m, now, cfa, rules, ra)
      {
        BothForIp(m, now, cfa, rules, q, ra);
      }
    }
    if IpAgrees(m, now, cfa, rules) {
      forall q, r, p | q in rules && r in rules && Writes(m, q, p) && Writes(m, r, p) && InLastBucket(m, rules, q, p)
                       && InLastBucket(m, rules, r, p)
        ensures Given(m, now, cfa, rules, q) == Given(m, now, cfa, rules, r)
      {
        if q != r {
          SharedIsIp(m, rules, q, r, p);
        }
      }
    }
  }

  lemma BothForIp(m: Target, now: ThreadState, cfa: nat, rules: Rules, q: RegNum, ra: RegNum)
    requires m.Valid() && AllGiven(m, now, cfa, rules) && Injective(m, rules) && q in rules && ra in rules && q != ra
    requires ra == m.returnAddressRegister && m.registerOf(q) == Some(REG_IP) && q % BUCKET_COUNT == ra % BUCKET_COUNT
    ensures Writes(m, q, REG_IP) && Writes(m, ra, REG_IP)
    ensures InLastBucket(m, rules, q, REG_IP) && InLastBucket(m, rules, ra, REG_IP)
  {
    assert Given(m, now, cfa, rules, ra).Some?;
    forall t | t in rules && Writes(m, t, REG_IP) ensures t == q || t == ra {
      if t != q {
        SharedIsIp(m, rules, q, t, REG_IP);
      }
    }
  }
}

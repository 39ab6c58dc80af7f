/**
 * `nasync_remove_first_value`: it finds a node as a reader and takes the lock only then, to remove that node. What
 * happens to the node in between decides which value goes.
 */
module AsyncListFind {
  import opened Common
  import opened AsyncList
  import opened AsyncListSafety
  import opened AsyncListSteps
  import opened AsyncListRuns
  import opened AsyncListReaders

  /** Reader `t` makes none of these steps. */
  ghost predicate Waits(steps: seq<Step>, t: nat) {
    Start(t) !in steps && Advance(t) !in steps && Leave(t) !in steps && Enter(t) !in steps
  }

  /** `t` stands on the node `x`, which has been linked with this value ever since, if it has not been unlinked. */
  ghost predicate StandsOn(s: State, t: nat, x: nat, value: int) {
    && t in s.readers && s.readers[t].cur == Some(x)
    && (!s.readers[t].lost ==> x in s.chain && ValueAt(s.nodes, x) == value)
  }

  lemma StepKeepsStanding(s: State, step: Step, t: nat, x: nat, value: int)
    requires Inv(s) && Enabled(s, step) && Waits([step], t) && StandsOn(s, t, x, value)
    ensures StandsOn(Next(s, step), t, x, value)
  {
    hide Inv, StepWriter;
    assert step in [step];
    LinkedValuesStay(s, step);
    if step.WriterStep? {
      WriterChainEffect(s, step.address);
      EffectKeepsStanding(s, StepWriter(s, step.address), t, x);
    }
  }

  lemma EffectKeepsStanding(s: State, s': State, t: nat, x: nat)
    requires ChainEffect(s, s') && t in s.readers && s.readers[t].cur == Some(x)
      && (!s.readers[t].lost ==> x in s.chain)
    ensures t in s'.readers && s'.readers[t].cur == Some(x)
    ensures !s'.readers[t].lost ==> !s.readers[t].lost && x in s'.chain
  {
    hide Without;
    if n :| s'.chain == Without(s.chain, n) && s'.readers == map t | t in s.readers :: NoteUnlinked(s.readers[t], n) {
      OnlyOldNodes(s.chain, n);
    }
  }

  lemma {:induction false} WaitingKeepsStanding(s: State, steps: seq<Step>, t: nat, x: nat, value: int)
    requires Inv(s) && Possible(s, steps) && Waits(steps, t) && StandsOn(s, t, x, value)
    ensures Inv(Run(s, steps)) && StandsOn(Run(s, steps), t, x, value)
    decreases steps
  {
    hide Inv, Next, Enabled, StandsOn;
    if steps != [] {
      StepKeepsInv(s, steps[0]);
      StepKeepsStanding(s, steps[0], t, x, value);
      WaitingKeepsStanding(Next(s, steps[0]), steps[1..], t, x, value);
    }
  }

  /**
   * Whatever other readers and writers do between the find and the lock: if the found node has not been unlinked under
   * the searching reader, the removal that follows takes out exactly this node, and it carries the value looked for.
   */
  lemma RemovesFoundValue(s: State, t: nat, value: int, between: seq<Step>, removal: seq<Step>)
    requires Inv(s) && t in s.readers && s.readers[t].cur.Some? && s.readers[t].cur.value in s.chain
    requires ValueAt(s.nodes, s.readers[t].cur.value) == value
    requires Possible(s, between) && Waits(between, t) && Unlocked(removal)
    requires
      var x, s1 := s.readers[t].cur.value, Run(s, between);
      && s1.writer.Idle? && t in s1.readers && !s1.readers[t].lost
      && Possible(s1, [LockRemove(x)] + removal) && Run(s1, [LockRemove(x)] + removal).writer.Idle?
    ensures
      var x, s1 := s.readers[t].cur.value, Run(s, between);
      var s2 := Run(s1, [LockRemove(x)] + removal);
      && multiset(Values(s1.nodes, s1.chain)) == multiset(Values(s2.nodes, s2.chain)) + multiset{value}
      && x in s1.chain && ValueAt(s1.nodes, x) == value
      && WellLinked(s2) && s2.chain == Without(s1.chain, x) && Values(s2.nodes, s2.chain) == Values(s1.nodes, s2.chain)
  {
    hide Inv, Run, Possible, WellLinked, Without;
    var x, s1 := s.readers[t].cur.value, Run(s, between);
    WaitingKeepsStanding(s, between, t, x, value);
    OperationTakesEffect(s1, Remove(x), removal);
    RemovesValueIff(s1, x, value, removal);
  }

  lemma {:induction false} WithoutValues(nodes: map<nat, Node>, c: seq<nat>, x: nat)
    requires Distinct(c)
    ensures multiset(Values(nodes, c)) ==
            multiset(Values(nodes, Without(c, x))) + if x in c then multiset{ValueAt(nodes, x)} else multiset{}
  {
    if c != [] {
      ValuesFirst(nodes, c);
      if c[0] == x {
        WithoutAbsent(c[1..], x);
      } else {
        WithoutValues(nodes, c[1..], x);
        ValuesFirst(nodes, Without(c, x));
      }
    }
  }

  lemma ValuesFirst(nodes: map<nat, Node>, c: seq<nat>)
    requires c != []
    ensures multiset(Values(nodes, c)) == multiset{ValueAt(nodes, c[0])} + multiset(Values(nodes, c[1..]))
  {
    assert Values(nodes, c) == [ValueAt(nodes, c[0])] + Values(nodes, c[1..]);
  }

  /**
   * The exact condition, for any node `x` that a thread may have found: the removal takes one occurrence of `value`,
   * and nothing else, out of the list if and only if `x` is linked and carries `value` when the lock is taken.
   */
  lemma RemovesValueIff(s: State, x: nat, value: int, removal: seq<Step>)
    requires Inv(s) && s.writer.Idle? && Possible(s, [LockRemove(x)] + removal) && Unlocked(removal)
    requires Run(s, [LockRemove(x)] + removal).writer.Idle?
    ensures
      var s' := Run(s, [LockRemove(x)] + removal);
      multiset(Values(s.nodes, s.chain)) == multiset(Values(s'.nodes, s'.chain)) + multiset{value} <==>
      x in s.chain && ValueAt(s.nodes, x) == value
  {
    hide Inv, Run, Possible, WellLinked, Without;
    OperationTakesEffect(s, Remove(x), removal);
    ListForward(s);
    WithoutValues(s.nodes, s.chain, x);
    OneMore(multiset(Values(s.nodes, Without(s.chain, x))), ValueAt(s.nodes, x), value);
  }

  lemma OneMore(m: multiset<int>, a: int, b: int)
    ensures m + multiset{a} == m + multiset{b} <==> a == b
    ensures m + multiset{} != m + multiset{b}
  {
    assert (m + multiset{b})[b] == m[b] + 1;
    assert (m + multiset{})[b] == m[b];
    assert (m + multiset{a})[b] == m[b] + if a == b then 1 else 0;
  }

  /** The rest of the prepending that has taken the node again. */
  function Publishing(address: nat): seq<Step> {
    [WriterStep(address), WriterStep(address)]
  }

  /**
   * Otherwise it need not: if the found node has been recycled, prepending any other value puts it into that node and
   * the node into the list, and the removal of the node takes out the other value.
   */
  lemma ReusedNodeHasOtherValue(s: State, t: nat, other: int, address: nat) returns (s': State)
    requires Inv(s) && s.writer.Idle? && s.freed != [] && s.chain != [] && address !in s.nodes
    requires t in s.readers && s.readers[t].cur == Some(s.freed[0])
    ensures Possible(s, Reusing(other, address) + Publishing(address))
    ensures s' == Run(s, Reusing(other, address) + Publishing(address))
    ensures Inv(s') && s'.writer.Idle? && s'.readers == s.readers
    ensures s'.chain == [s.freed[0]] + s.chain && ValueAt(s'.nodes, s.freed[0]) == other
  {
    hide Inv, StepWriter, Possible, Run;
    var s3 := TakesAgain(s, other, address);
    s' := Publishes(s3, address);
    RunConcat(s, Reusing(other, address), Publishing(address));
  }

  lemma Publishes(s: State, address: nat) returns (s': State)
    requires Inv(s) && s.writer.FrontNext? && address !in s.nodes && s.writer.node in s.nodes
    ensures Possible(s, Publishing(address)) && s' == Run(s, Publishing(address)) && Inv(s') && s'.writer.Idle?
    ensures s'.readers == s.readers && s'.chain == [s.writer.node] + s.chain
    ensures ValueAt(s'.nodes, s.writer.node) == s.nodes[s.writer.node].value
  {
    hide Inv, StepWriter, Possible, Run, Sound;
    var s1 := StepWriter(s, address);
    InsertionEffect(s, address);
    WriterStepKeepsInv(s, address);
    s' := StepWriter(s1, address);
    InsertionEffect(s1, address);
    WriterStepKeepsInv(s1, address);
    RunNone(s');
    var last := [WriterStep(address)] + [];
    RunFirst(s1, WriterStep(address), []);
    RunFirst(s, WriterStep(address), last);
    assert Publishing(address) == [WriterStep(address)] + last;
  }

  lemma {:induction false} RunConcat(s: State, a: seq<Step>, b: seq<Step>)
    requires Possible(s, a) && Possible(Run(s, a), b)
    ensures Possible(s, a + b) && Run(s, a + b) == Run(Run(s, a), b)
    decreases a
  {
    hide Next, Enabled;
    if a == [] {
      assert a + b == b;
    } else {
      assert (a + b)[1..] == a[1..] + b;
      RunConcat(Next(s, a[0]), a[1..], b);
    }
  }
}

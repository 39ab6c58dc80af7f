/** How many steps of its own a writer of an `async_list` takes: what readers do meanwhile does not delay it. */
module AsyncListProgress {
  import opened Common
  import opened AsyncList
  import opened AsyncListSafety
  import opened AsyncListSteps
  import opened AsyncListRuns
  import opened AsyncListReaders

  /** The number of nodes from `x` on. */
  function From(c: seq<nat>, x: nat): (n: nat)
    ensures n <= |c| && (x in c ==> n > 0)
  {
    if c == [] then 0 else if c[0] == x then |c| else From(c[1..], x)
  }

  /** The number of steps that the writer can still take. */
  function Left(w: Writer, c: seq<nat>): nat {
    match w
    case Idle => 0
    case Inserting(_, _) => 4
    case Linking(_, _) => 3
    case FirstTail(_) => 1
    case FrontNext(_) => 2
    case FrontPrev(_) => 1
    case BackLinked(_) => 2
    case BackPrev(_) => 1
    case Searching(_, at) => if at.None? then 1 else 5 + From(c, at.value)
    case Found(_) => 5
    case Unlinked(_) => 4
    case Detached(_) => 3
    case Recycling(_) => 2
    case Chained(_) => 1
    case Deleting(_) => 1
  }

  lemma {:induction false} FromAt(c: seq<nat>, i: nat)
    requires Distinct(c) && i < |c|
    ensures From(c, c[i]) == |c| - i
  {
    if i > 0 {
      FromAt(c[1..], i - 1);
    }
  }

  lemma SearchGoesOn(s: State)
    requires Inv(s) && s.writer.Searching? && s.writer.at.Some?
    ensures s.writer.at.value in s.nodes && From(s.chain, s.writer.at.value) > 0
    ensures
      var next := s.nodes[s.writer.at.value].next;
      next.Some? ==> From(s.chain, next.value) == From(s.chain, s.writer.at.value) - 1
  {
    hide Inv, Sound, From;
    ListForward(s);
    SearchPosition(s);
    var k :| 0 <= k < |s.chain| && s.chain[k] == s.writer.at.value;
    FromAt(s.chain, k);
    LinkAt(s.nodes, s.chain, k);
    if k + 1 < |s.chain| {
      FromAt(s.chain, k + 1);
    }
  }

  lemma SearchPosition(s: State)
    requires Inv(s) && s.writer.Searching? && s.writer.at.Some?
    ensures s.writer.at.value in s.chain
  {
    hide Nexts, Prevs, Distinct, BackwardLinks, ForwardLinks, Apart;
  }

  /** Every step of the writer uses one up. */
  lemma WriterAdvances(s: State, address: nat)
    requires Inv(s) && Enabled(s, WriterStep(address))
    ensures
      var s' := StepWriter(s, address);
      Left(s'.writer, s'.chain) < Left(s.writer, s.chain)
  {
    hide Inv, StepWriter, Left;
    if s.writer.Searching? {
      SearchAdvances(s, address);
    } else if Removing(s.writer) {
      RemovalAdvances(s, address);
    } else {
      InsertionAdvances(s, address);
    }
  }

  lemma SearchAdvances(s: State, address: nat)
    requires Inv(s) && s.writer.Searching?
    ensures
      var s' := StepWriter(s, address);
      Left(s'.writer, s'.chain) < Left(s.writer, s.chain)
  {
    hide Inv, From, TakeNode, LinkNode, SwapHead, Unlink, DetachNode, ChainFree;
    if s.writer.at.Some? {
      SearchGoesOn(s);
    }
  }

  lemma InsertionAdvances(s: State, address: nat)
    requires !s.writer.Idle? && !Removing(s.writer)
    ensures
      var s' := StepWriter(s, address);
      !s'.writer.Searching? && Left(s'.writer, s'.chain) < Left(s.writer, s.chain)
  {
    hide From, Store, Touch, At, Unlink, DetachNode, ChainFree;
  }

  lemma RemovalAdvances(s: State, address: nat)
    requires Removing(s.writer) && !s.writer.Searching?
    ensures
      var s' := StepWriter(s, address);
      !s'.writer.Searching? && Left(s'.writer, s'.chain) < Left(s.writer, s.chain)
  {
    hide From, Store, Touch, At, Without, NoteUnlinked, TakeNode, LinkNode, SwapHead;
  }

  /** The steps of the writer itself. */
  function Own(steps: seq<Step>): nat {
    if steps == [] then 0 else (if steps[0].WriterStep? then 1 else 0) + Own(steps[1..])
  }

  lemma StepLeaves(s: State, step: Step)
    requires Inv(s) && Enabled(s, step) && Unlocked([step])
    ensures
      var s' := Next(s, step);
      Left(s'.writer, s'.chain) + (if step.WriterStep? then 1 else 0) <= Left(s.writer, s.chain)
  {
    hide Inv, StepWriter, Left;
    assert step in [step];
    if step.WriterStep? {
      WriterAdvances(s, step.address);
    }
  }

  lemma {:induction false} RunLeaves(s: State, steps: seq<Step>)
    requires Inv(s) && Possible(s, steps) && Unlocked(steps)
    ensures
      var s' := Run(s, steps);
      Inv(s') && Left(s'.writer, s'.chain) + Own(steps) <= Left(s.writer, s.chain)
    decreases steps
  {
    hide Inv, Next, Enabled, Left;
    if steps != [] {
      StepKeepsInv(s, steps[0]);
      StepLeaves(s, steps[0]);
      RunLeaves(Next(s, steps[0]), steps[1..]);
    }
  }

  /** The most steps that an operation takes after it has got the lock. */
  function Bound(op: Operation, c: seq<nat>): nat {
    if op.Insert? then 4 else if c == [] then 1 else |c| + 5
  }

  /**
   * An insertion takes at most four steps of the writer, a removal at most five more than the list has nodes,
   * whatever the readers do in between. Until then the writer is never stuck: its next step is enabled, with any
   * address that is free.
   */
  lemma OperationEnds(s: State, op: Operation, steps: seq<Step>)
    requires Inv(s) && s.writer.Idle? && Possible(s, [Lock(op)] + steps) && Unlocked(steps)
    ensures
      var s' := Run(s, [Lock(op)] + steps);
      && Own(steps) <= Bound(op, s.chain)
      && (Own(steps) == Bound(op, s.chain) ==> s'.writer.Idle?)
      && (!s'.writer.Idle? ==> forall address: nat :: address !in s'.nodes ==> Enabled(s', WriterStep(address)))
  {
    hide Inv, Possible, StepWriter;
    assert ([Lock(op)] + steps)[1..] == steps;
    LockedRun(s, op, steps);
    StepKeepsInv(s, Lock(op));
    RunLeaves(Next(s, Lock(op)), steps);
    ListForward(s);
    LeftIsNone(Run(s, [Lock(op)] + steps));
  }

  lemma LockedRun(s: State, op: Operation, steps: seq<Step>)
    requires Possible(s, [Lock(op)] + steps)
    ensures
      var s1 := Next(s, Lock(op));
      && Enabled(s, Lock(op)) && Possible(s1, steps) && Run(s, [Lock(op)] + steps) == Run(s1, steps)
  {
    hide Next, Enabled;
    assert ([Lock(op)] + steps)[1..] == steps;
  }

  lemma LeftIsNone(s: State)
    ensures Left(s.writer, s.chain) == 0 <==> s.writer.Idle?
  {
  }
}

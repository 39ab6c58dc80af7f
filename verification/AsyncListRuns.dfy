/** What holds after any interleaving of readers and writers on an `async_list`. */
module AsyncListRuns {
  import opened Common
  import opened AsyncList
  import opened AsyncListSafety
  import opened AsyncListSteps

  /** How the list of linked nodes differs after a step: not at all, or by one node. */
  ghost predicate ChainEffect(s: State, s': State) {
    || (s'.chain == s.chain && s'.readers == s.readers)
    || (exists n :: n !in s.chain && s'.chain == [n] + s.chain && s'.readers == s.readers)
    || (exists n :: n !in s.chain && s'.chain == s.chain + [n] && s'.readers == s.readers)
    || (exists n :: s'.chain == Without(s.chain, n)
                    && s'.readers == map t | t in s.readers :: NoteUnlinked(s.readers[t], n))
  }

  lemma PrivateIsNotLinked(s: State)
    requires Inv(s)
    ensures forall x :: x in Private(s.writer) ==> x !in s.chain
  {
    hide Nexts, Prevs, Distinct, BackwardLinks;
  }

  lemma WriterStepKeepsInv(s: State, address: nat)
    requires Inv(s) && Enabled(s, WriterStep(address))
    ensures Inv(StepWriter(s, address))
  {
    hide Inv, Without, StepWriter;
    match s.writer
    case Inserting(_, _) =>
      if s.free.Some? { RecycleStep(s, address); } else { AllocateStep(s, address); }
    case Linking(front, _) =>
      if s.tail.None? { LinkFirstStep(s, address); }
      else if front { LinkFrontStep(s, address); }
      else { LinkBackStep(s, address); }
    case FirstTail(_) => FirstTailStep(s, address);
    case FrontNext(_) => FrontNextStep(s, address);
    case FrontPrev(_) => FrontPrevStep(s, address);
    case BackLinked(_) => BackLinkedStep(s, address);
    case BackPrev(_) => BackPrevStep(s, address);
    case Searching(_, _) => SearchStep(s, address);
    case Found(_) => UnlinkStep(s, address);
    case Unlinked(_) => DetachStep(s, address);
    case Detached(_) => CheckStep(s, address);
    case Recycling(_) => RecyclingStep(s, address);
    case Chained(_) => ChainFreeStep(s, address);
    case Deleting(_) => DeleteStep(s, address);
  }

  predicate Removing(w: Writer) {
    w.Searching? || w.Found? || w.Unlinked? || w.Detached? || w.Recycling? || w.Chained? || w.Deleting?
  }

  /** The memory and writer after a step of an insertion. */
  function InsertionView(v: View, address: nat): View
    requires v.writer.Inserting? && v.free.Some? ==> v.freed != []
    requires v.writer.Linking? && v.tail.Some? && !v.writer.front ==> v.chain != [] && v.chain[|v.chain| - 1] in v.nodes
    requires v.writer.Linking? || v.writer.BackLinked? ==> v.writer.node in v.nodes
    requires v.writer.FrontNext? ==> v.head.Some? && v.head.value in v.nodes
  {
    match v.writer
    case Inserting(front, value) =>
      if v.free.Some? then WithRecycled(v, value)
      else v.(nodes := v.nodes[address := Node(value, None, None)], writer := Linking(front, address))
    case Linking(front, n) =>
      if v.tail.None? then v.(tail := Some(n), writer := FirstTail(n))
      else if front then v.(nodes := v.nodes[n := v.nodes[n].(next := v.head, prev := None)], writer := FrontNext(n))
      else WithLast(v)
    case FirstTail(_) => WithFirst(v)
    case FrontNext(n) =>
      v.(nodes := v.nodes[v.head.value := v.nodes[v.head.value].(prev := Some(n))], writer := FrontPrev(n))
    case FrontPrev(_) => WithFirst(v)
    case BackLinked(n) => v.(nodes := v.nodes[n := v.nodes[n].(prev := v.tail)], writer := BackPrev(n))
    case BackPrev(n) => v.(tail := Some(n), writer := Idle)
    case _ => v
  }

  lemma InsertionFacts(v: View)
    requires Sound(v)
    ensures v.writer.Inserting? && v.free.Some? ==> v.freed != [] && v.free == Some(v.freed[0]) && v.freed[0] in v.nodes
    ensures v.writer.Linking? && v.tail.Some? ==> v.chain != [] && v.chain[|v.chain| - 1] in v.nodes
    ensures v.writer.Linking? || v.writer.BackLinked? || v.writer.FirstTail? || v.writer.FrontPrev? ==>
      v.writer.node in v.nodes
    ensures v.writer.FrontNext? ==> v.head.Some? && v.head.value in v.nodes
  {
    hide Sound;
    WriterFacts(v);
  }

  /** The steps of an insertion, seen on values. */
  lemma InsertionEffect(s: State, address: nat)
    requires Inv(s) && !s.writer.Idle? && !Removing(s.writer)
    ensures Sound(ViewOf(s))
    ensures s.writer.Inserting? && s.free.Some? ==> s.freed != [] && s.free == Some(s.freed[0])
    ensures s.writer.Linking? && s.tail.Some? && !s.writer.front ==> s.chain != [] && s.chain[|s.chain| - 1] in s.nodes
    ensures s.writer.Linking? || s.writer.BackLinked? ==> s.writer.node in s.nodes
    ensures s.writer.FrontNext? ==> s.head.Some? && s.head.value in s.nodes
    ensures Becomes(s, StepWriter(s, address), InsertionView(ViewOf(s), address))
  {
    hide Sound, StepWriter;
    InsertionFacts(ViewOf(s));
    WriterFacts(ViewOf(s));
    match s.writer
    case Inserting(_, _) =>
      if s.free.Some? { Recycles(s, address); } else { Allocates(s, address); }
    case Linking(front, _) =>
      if s.tail.None? { LinksFirst(s, address); }
      else if front { LinksFront(s, address); }
      else { LinksBack(s, address); }
    case FirstTail(_) => SwapsHead(s, address);
    case FrontPrev(_) => SwapsHead(s, address);
    case FrontNext(_) => StoresHead(s, address);
    case BackLinked(_) => StoresPrev(s, address);
    case BackPrev(_) => StoresTail(s, address);
  }

  lemma RemovalChainEffect(s: State, address: nat)
    requires Inv(s) && Removing(s.writer)
    ensures ChainEffect(s, StepWriter(s, address))
  {
    hide Inv, Without, StepWriter, ChainEffect;
    if s.writer.Found? {
      UnlinkStep(s, address);
      ReadersNoted(s, address);
      Removed(s, s.writer.item, StepWriter(s, address));
    } else {
      OnlyUnlinkingRemoves(s, address);
      Unaffected(s, StepWriter(s, address));
    }
  }

  lemma OnlyUnlinkingRemoves(s: State, address: nat)
    requires Removing(s.writer) && !s.writer.Found?
    ensures StepWriter(s, address).chain == s.chain && StepWriter(s, address).readers == s.readers
  {
    hide TakeNode, LinkNode, SwapHead, Unlink, DetachNode, ChainFree, Store, Touch, At;
    var w := s.writer;
    if w.Unlinked? {
      DetachKeepsChain(s, w.item);
    } else if w.Chained? {
      FreeKeepsChain(s, w.item);
    } else if w.Recycling? {
      StoreKeepsChain(s, Some(w.item), At(s, Some(w.item)).(prev := None, next := s.free));
    } else if w.Searching? {
      TouchKeepsChain(s, w.at);
    }
  }

  lemma StoreKeepsChain(s: State, p: Ptr, n: Node)
    ensures Store(s, p, n).chain == s.chain && Store(s, p, n).readers == s.readers
  {
  }

  lemma TouchKeepsChain(s: State, p: Ptr)
    ensures Touch(s, p).chain == s.chain && Touch(s, p).readers == s.readers
  {
  }

  lemma DetachKeepsChain(s: State, item: nat)
    ensures DetachNode(s, item).chain == s.chain && DetachNode(s, item).readers == s.readers
  {
  }

  lemma FreeKeepsChain(s: State, item: nat)
    ensures ChainFree(s, item).chain == s.chain && ChainFree(s, item).readers == s.readers
  {
  }

  lemma ReadersNoted(s: State, address: nat)
    requires s.writer.Found?
    ensures StepWriter(s, address).readers == map t | t in s.readers :: NoteUnlinked(s.readers[t], s.writer.item)
  {
    hide TakeNode, LinkNode, SwapHead, DetachNode, ChainFree, NoteUnlinked, Without;
  }

  lemma InsertionChainEffect(s: State, address: nat)
    requires Inv(s) && !s.writer.Idle? && !Removing(s.writer)
    ensures ChainEffect(s, StepWriter(s, address))
  {
    hide Inv, Without, ChainEffect, StepWriter;
    PrivateIsNotLinked(s);
    InsertionEffect(s, address);
    var s' := StepWriter(s, address);
    if s.writer.FirstTail? || s.writer.FrontPrev? {
      Prepended(s, s.writer.node, s');
    } else if s.writer.Linking? && s.tail.Some? && !s.writer.front {
      Appended(s, s.writer.node, s');
    } else {
      Unaffected(s, s');
    }
  }

  lemma Removed(s: State, n: nat, s': State)
    requires s'.chain == Without(s.chain, n) && s'.readers == map t | t in s.readers :: NoteUnlinked(s.readers[t], n)
    ensures ChainEffect(s, s')
  {
  }

  lemma Prepended(s: State, n: nat, s': State)
    requires n !in s.chain && s'.chain == [n] + s.chain && s'.readers == s.readers
    ensures ChainEffect(s, s')
  {
  }

  lemma Appended(s: State, n: nat, s': State)
    requires n !in s.chain && s'.chain == s.chain + [n] && s'.readers == s.readers
    ensures ChainEffect(s, s')
  {
  }

  lemma Unaffected(s: State, s': State)
    requires s'.chain == s.chain && s'.readers == s.readers
    ensures ChainEffect(s, s')
  {
  }

  lemma WriterChainEffect(s: State, address: nat)
    requires Inv(s) && !s.writer.Idle?
    ensures ChainEffect(s, StepWriter(s, address))
  {
    hide Inv, Without, StepWriter, ChainEffect;
    if Removing(s.writer) {
      RemovalChainEffect(s, address);
    } else {
      InsertionChainEffect(s, address);
    }
  }

  lemma StepKeepsInv(s: State, step: Step)
    requires Inv(s) && Enabled(s, step)
    ensures Inv(Next(s, step))
  {
    hide Inv;
    match step
    case LockInsert(_, _) => LockStep(s, step);
    case LockRemove(_) => LockStep(s, step);
    case WriterStep(address) => WriterStepKeepsInv(s, address);
    case Enter(_) => ReaderStep(s, step);
    case Start(_) => ReaderStep(s, step);
    case Advance(_) => ReaderStep(s, step);
    case Leave(_) => ReaderStep(s, step);
  }

  /** Every step of the run is enabled where it is taken. */
  ghost predicate Possible(s: State, steps: seq<Step>)
    decreases steps
  {
    steps != [] ==> Enabled(s, steps[0]) && Possible(Next(s, steps[0]), steps[1..])
  }

  ghost function Run(s: State, steps: seq<Step>): State
    requires Possible(s, steps)
    decreases steps
  {
    if steps == [] then s else Run(Next(s, steps[0]), steps[1..])
  }

  /** From any good state, and so from the empty list, every interleaving keeps the invariant. */
  lemma {:induction false} RunsKeepInv(s: State, steps: seq<Step>)
    requires Inv(s) && Possible(s, steps)
    ensures Inv(Run(s, steps))
    decreases steps
  {
    hide Inv, Next, Enabled;
    if steps != [] {
      StepKeepsInv(s, steps[0]);
      RunsKeepInv(Next(s, steps[0]), steps[1..]);
    }
  }

  /**
   * No interleaving makes a reader or a writer dereference a deallocated node, and no compare-and-swap ever fails: the
   * error branches of the source are dead.
   */
  lemma NeverDangling(steps: seq<Step>)
    requires Possible(Initial(), steps)
    ensures
      var s := Run(Initial(), steps);
      && !s.fault && !s.casFailed && s.refcount == |s.readers|
      && forall t :: t in s.readers && s.readers[t].cur.Some? ==> s.readers[t].cur.value in s.nodes
  {
    hide Next, Enabled, Possible, Run;
    InitialInv();
    RunsKeepInv(Initial(), steps);
    var s := Run(Initial(), steps);
    NodesAllocated(ViewOf(s));
  }

  /** One valid doubly linked list: what `assert_list_valid` checks. */
  ghost predicate WellLinked(s: State) {
    && Distinct(s.chain) && s.head == First(s.chain) && s.tail == LastOf(s.chain)
    && Nexts(s.nodes, s.chain) && Prevs(s.nodes, s.chain, -1)
  }

  lemma UnlockedListValid(s: State)
    requires Inv(s) && s.writer.Idle?
    ensures WellLinked(s)
  {
    hide Nexts, Prevs, Distinct;
  }

  function ValueAt(nodes: map<nat, Node>, x: nat): int {
    if x in nodes then nodes[x].value else 0
  }

  /** The values of the list from head to tail. */
  function Values(nodes: map<nat, Node>, c: seq<nat>): (r: seq<int>)
    ensures |r| == |c| && forall i {:trigger r[i]} :: 0 <= i < |c| ==> r[i] == ValueAt(nodes, c[i])
  {
    seq(|c|, i requires 0 <= i < |c| => ValueAt(nodes, c[i]))
  }

  datatype Operation = Insert(front: bool, value: int) | Remove(item: nat)

  function Lock(op: Operation): Step {
    match op
    case Insert(front, value) => LockInsert(front, value)
    case Remove(item) => LockRemove(item)
  }

  /** No other writer operation begins. */
  predicate Unlocked(steps: seq<Step>) {
    forall step :: step in steps ==> !step.LockInsert? && !step.LockRemove?
  }

  function Inserted(c: seq<nat>, front: bool, n: nat): seq<nat> {
    if front then [n] + c else c + [n]
  }

  /** Where an insertion into list `c` stands. */
  ghost predicate Inserts(front: bool, value: int, c: seq<nat>, s: State) {
    match s.writer
    case Inserting(f, v) => s.chain == c && f == front && v == value
    case Linking(f, n) => s.chain == c && f == front && n !in c && ValueAt(s.nodes, n) == value
    case FirstTail(n) => s.chain == c == [] && ValueAt(s.nodes, n) == value
    case FrontNext(n) => front && s.chain == c && n !in c && ValueAt(s.nodes, n) == value
    case FrontPrev(n) => front && s.chain == c && n !in c && ValueAt(s.nodes, n) == value
    case BackLinked(n) => !front && n !in c && s.chain == c + [n] && ValueAt(s.nodes, n) == value
    case BackPrev(n) => !front && n !in c && s.chain == c + [n] && ValueAt(s.nodes, n) == value
    case Idle => exists n :: n !in c && s.chain == Inserted(c, front, n) && ValueAt(s.nodes, n) == value
    case _ => false
  }

  /** Where a removal from list `c` stands. */
  ghost predicate Removes(item: nat, c: seq<nat>, s: State) {
    match s.writer
    case Searching(x, _) => s.chain == c && x == item
    case Found(x) => s.chain == c && x == item
    case Unlinked(_) => s.chain == Without(c, item)
    case Detached(_) => s.chain == Without(c, item)
    case Recycling(_) => s.chain == Without(c, item)
    case Chained(_) => s.chain == Without(c, item)
    case Deleting(_) => s.chain == Without(c, item)
    case Idle => s.chain == Without(c, item)
    case _ => false
  }

  ghost predicate Underway(op: Operation, c: seq<nat>, s: State) {
    if op.Insert? then Inserts(op.front, op.value, c, s) else Removes(op.item, c, s)
  }

  lemma TakenIsFresh(s: State)
    requires Inv(s) && s.writer.Inserting? && s.free.Some?
    ensures s.free.value !in s.chain && s.free.value in s.nodes
  {
    hide Nexts, Prevs, Distinct, BackwardLinks;
    FreeHeadAllocated(ViewOf(s));
  }

  /** The value of a linked node never changes. */
  lemma LinkedValuesStay(s: State, step: Step)
    requires Inv(s) && Enabled(s, step)
    ensures forall x :: x in s.chain ==> ValueAt(Next(s, step).nodes, x) == ValueAt(s.nodes, x)
  {
    hide Inv, StepWriter;
    if step.WriterStep? {
      WriterValuesStay(s, step.address);
    }
  }

  lemma WriterValuesStay(s: State, address: nat)
    requires Inv(s) && Enabled(s, WriterStep(address))
    ensures forall x :: x in s.chain ==> ValueAt(StepWriter(s, address).nodes, x) == ValueAt(s.nodes, x)
  {
    hide Inv, StepWriter;
    PrivateIsNotLinked(s);
    AllLinkedAllocated(s);
    if s.writer.Inserting? && s.free.Some? {
      TakenIsFresh(s);
    }
    forall x | x in s.chain ensures ValueAt(StepWriter(s, address).nodes, x) == ValueAt(s.nodes, x) {
      WriterValueStays(s, address, x);
    }
  }

  lemma WriterValueStays(s: State, address: nat, x: nat)
    requires !s.writer.Idle? && x in s.nodes && address !in s.nodes && x !in Private(s.writer)
    requires s.writer.Inserting? ==> s.free != Some(x)
    ensures ValueAt(StepWriter(s, address).nodes, x) == s.nodes[x].value
  {
    hide StepWriter;
    if Removing(s.writer) {
      RemovalKeepsValue(s, address, x);
    } else {
      InsertionKeepsValue(s, address, x);
    }
  }

  lemma StoreKeepsValue(s: State, p: Ptr, n: Node, x: nat)
    requires x in s.nodes && (p == Some(x) ==> n.value == s.nodes[x].value)
    ensures ValueAt(Store(s, p, n).nodes, x) == s.nodes[x].value
  {
  }

  lemma InsertionKeepsValue(s: State, address: nat, x: nat)
    requires !s.writer.Idle? && !Removing(s.writer) && x in s.nodes && address !in s.nodes && x !in Private(s.writer)
    requires s.writer.Inserting? ==> s.free != Some(x)
    ensures ValueAt(StepWriter(s, address).nodes, x) == s.nodes[x].value
  {
    hide Unlink, Store, ValueAt;
    var w := s.writer;
    if w.Inserting? {
      StoreKeepsValue(s, s.free, Node(w.value, None, None), x);
      NodeKept(s.nodes, address, Node(w.value, None, None), x);
    } else if w.Linking? {
      StoreKeepsValue(s, Some(w.node), At(s, Some(w.node)).(next := s.head, prev := None), x);
      StoreKeepsValue(s, s.tail, At(s, s.tail).(next := Some(w.node)), x);
      NodeKept(s.nodes, address, Node(0, None, None), x);
    } else if w.FrontNext? {
      StoreKeepsValue(s, s.head, At(s, s.head).(prev := Some(w.node)), x);
    } else if w.BackLinked? {
      StoreKeepsValue(s, Some(w.node), At(s, Some(w.node)).(prev := s.tail), x);
    } else {
      NodeKept(s.nodes, address, Node(0, None, None), x);
    }
  }

  lemma NodeKept(nodes: map<nat, Node>, address: nat, n: Node, x: nat)
    requires x in nodes && address != x
    ensures ValueAt(nodes, x) == nodes[x].value == ValueAt(nodes[address := n], x) == ValueAt(nodes - {address}, x)
  {
  }

  lemma RemovalKeepsValue(s: State, address: nat, x: nat)
    requires Removing(s.writer) && x in s.nodes && x !in Private(s.writer)
    ensures ValueAt(StepWriter(s, address).nodes, x) == s.nodes[x].value
  {
    hide TakeNode, LinkNode, SwapHead, Store, ValueAt;
    var w := s.writer;
    var a: nat := if w.Deleting? then w.item else x + 1;
    NodeKept(s.nodes, a, Node(0, None, None), x);
    if w.Found? {
      var p := At(s, Some(w.item)).prev;
      StoreKeepsValue(Touch(s, Some(w.item)), p, At(s, p).(next := At(s, Some(w.item)).next), x);
    } else if w.Unlinked? {
      var n := At(s, Some(w.item));
      StoreKeepsValue(s, n.next, At(s, n.next).(prev := n.prev), x);
    } else if w.Recycling? {
      StoreKeepsValue(s, Some(w.item), At(s, Some(w.item)).(prev := None, next := s.free), x);
    } else if w.Chained? {
      StoreKeepsValue(s, s.free, At(s, s.free).(prev := Some(w.item)), x);
    }
  }

  lemma AllLinkedAllocated(s: State)
    requires Inv(s)
    ensures forall x :: x in s.chain ==> x in s.nodes
  {
    hide Nexts, Prevs, Distinct, BackwardLinks;
  }

  lemma {:induction false} InsertStep(front: bool, value: int, c: seq<nat>, s: State, address: nat)
    requires Inv(s) && !s.writer.Idle? && address !in s.nodes && Inserts(front, value, c, s)
    ensures Inserts(front, value, c, StepWriter(s, address))
  {
    hide Inv, StepWriter, Sound;
    PrivateIsNotLinked(s);
    AllLinkedAllocated(s);
    InsertionEffect(s, address);
    var s' := StepWriter(s, address);
    match s.writer
    case Inserting(_, _) =>
      if s.free.Some? { TakenIsFresh(s); }
      assert ValueAt(s'.nodes, s'.writer.node) == value;
    case Linking(_, n) =>
      TailOfEmpty(s);
      assert ValueAt(s'.nodes, n) == value;
    case FirstTail(n) =>
      assert Inserted(c, front, n) == [n] == [n] + s.chain;
    case FrontNext(n) =>
      assert ValueAt(s'.nodes, n) == value;
    case FrontPrev(n) =>
      assert s'.chain == Inserted(c, front, n);
    case BackLinked(n) =>
      assert ValueAt(s'.nodes, n) == value;
    case BackPrev(n) =>
      assert s'.chain == Inserted(c, front, n);
  }

  lemma TailOfEmpty(s: State)
    requires Inv(s) && s.writer.Linking?
    ensures s.tail == LastOf(s.chain)
  {
    hide Nexts, Prevs, Distinct;
  }

  lemma RemoveStep(item: nat, c: seq<nat>, s: State, address: nat)
    requires Inv(s) && !s.writer.Idle? && Removes(item, c, s)
    ensures Removes(item, c, StepWriter(s, address))
  {
    hide Inv, Without, TakeNode, LinkNode, SwapHead;
    match s.writer
    case Searching(_, _) =>
      SearchStep(s, address);
      if StepWriter(s, address).writer.Idle? { WithoutAbsent(c, item); }
    case Found(_) => UnlinkStep(s, address);
    case _ =>
  }

  /** The nodes of `c` have the values that they have in `nodes`, except for a node to be removed. */
  ghost predicate ValuesKept(op: Operation, nodes: map<nat, Node>, c: seq<nat>, s: State) {
    forall x :: x in c && op != Remove(x) ==> ValueAt(s.nodes, x) == ValueAt(nodes, x)
  }

  lemma UnderwayStep(op: Operation, c: seq<nat>, nodes: map<nat, Node>, s: State, step: Step)
    requires Inv(s) && Enabled(s, step) && Unlocked([step]) && Underway(op, c, s) && ValuesKept(op, nodes, c, s)
    ensures Underway(op, c, Next(s, step)) && ValuesKept(op, nodes, c, Next(s, step))
  {
    hide Inv, StepWriter, Without;
    assert step in [step];
    LinkedValuesStay(s, step);
    StillLinked(op, c, s);
    if step.WriterStep? {
      if op.Insert? {
        InsertStep(op.front, op.value, c, s, step.address);
      } else {
        RemoveStep(op.item, c, s, step.address);
      }
    }
  }

  /** During an operation the nodes of the original list stay linked, except for a node to be removed. */
  lemma StillLinked(op: Operation, c: seq<nat>, s: State)
    requires Underway(op, c, s)
    ensures forall x :: x in c && op != Remove(x) ==> x in s.chain
  {
    hide Without;
    if op.Remove? {
      OnlyOldNodes(c, op.item);
    }
  }

  lemma {:induction false} OperationUnderway(op: Operation, c: seq<nat>, nodes: map<nat, Node>, s: State,
      steps: seq<Step>)
    requires Inv(s) && Possible(s, steps) && Unlocked(steps) && Underway(op, c, s) && ValuesKept(op, nodes, c, s)
    ensures Underway(op, c, Run(s, steps)) && ValuesKept(op, nodes, c, Run(s, steps)) && Inv(Run(s, steps))
    decreases steps
  {
    hide Inv, Next, Enabled, Underway, ValuesKept;
    if steps != [] {
      StepKeepsInv(s, steps[0]);
      UnderwayStep(op, c, nodes, s, steps[0]);
      OperationUnderway(op, c, nodes, Next(s, steps[0]), steps[1..]);
    }
  }

  lemma OperationRuns(s: State, op: Operation, steps: seq<Step>)
    requires Inv(s) && s.writer.Idle? && Possible(s, [Lock(op)] + steps) && Unlocked(steps)
    ensures
      var s' := Run(s, [Lock(op)] + steps);
      Inv(s') && Underway(op, s.chain, s') && ValuesKept(op, s.nodes, s.chain, s')
  {
    hide Inv, Without;
    assert ([Lock(op)] + steps)[1..] == steps;
    StepKeepsInv(s, Lock(op));
    OperationUnderway(op, s.chain, s.nodes, Next(s, Lock(op)), steps);
  }

  /**
   * A writer operation that has run to its end, with any reader steps in between, leaves one valid doubly linked list
   * with the new value in front or at the end, or without the removed node.
   */
  lemma OperationTakesEffect(s: State, op: Operation, steps: seq<Step>)
    requires Inv(s) && s.writer.Idle? && Possible(s, [Lock(op)] + steps) && Unlocked(steps)
    requires Run(s, [Lock(op)] + steps).writer.Idle?
    ensures
      var s' := Run(s, [Lock(op)] + steps);
      && WellLinked(s')
      && (op.Insert? && op.front ==> Values(s'.nodes, s'.chain) == [op.value] + Values(s.nodes, s.chain))
      && (op.Insert? && !op.front ==> Values(s'.nodes, s'.chain) == Values(s.nodes, s.chain) + [op.value])
      && (op.Remove? ==>
            s'.chain == Without(s.chain, op.item) && Values(s'.nodes, s'.chain) == Values(s.nodes, s'.chain))
  {
    hide Inv, Run, Possible, WellLinked, Without;
    var s' := Run(s, [Lock(op)] + steps);
    OperationRuns(s, op, steps);
    UnlockedListValid(s');
    if op.Insert? {
      var n :| n !in s.chain && s'.chain == Inserted(s.chain, op.front, n) && ValueAt(s'.nodes, n) == op.value;
      OldNodesInserted(s.chain, op.front, n);
    } else {
      OnlyOldNodes(s.chain, op.item);
      DistinctWithoutItem(s, op.item);
    }
  }

  lemma DistinctWithoutItem(s: State, item: nat)
    requires Inv(s)
    ensures item !in Without(s.chain, item)
  {
    hide Nexts, Prevs, BackwardLinks;
    if item in s.chain {
      var k :| 0 <= k < |s.chain| && s.chain[k] == item;
      WithoutAt(s.chain, k);
      DistinctWithout(s.chain, k);
    } else {
      WithoutAbsent(s.chain, item);
    }
  }

  lemma OldNodesInserted(c: seq<nat>, front: bool, n: nat)
    ensures forall x :: x in c ==> x in Inserted(c, front, n)
  {
  }

  lemma {:induction false} OnlyOldNodes(c: seq<nat>, item: nat)
    ensures forall x :: x in Without(c, item) ==> x in c
    ensures forall x :: x in c && x != item ==> x in Without(c, item)
  {
    if c != [] {
      OnlyOldNodes(c[1..], item);
    }
  }
}

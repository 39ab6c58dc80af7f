/** Where the nodes of an `async_list` go. */
module AsyncListNodes {
  import opened Common
  import opened AsyncList
  import opened AsyncListSafety
  import opened AsyncListSteps
  import opened AsyncListRuns

  /** Every allocated node is linked, free, leaked, or in the writer's hands. */
  ghost predicate Accounted(s: State) {
    forall x :: x in s.nodes ==> Placed(s, x)
  }

  ghost predicate Placed(s: State, x: nat) {
    x in s.chain || x in s.freed || x in s.leaked || x in Private(s.writer)
  }

  lemma FreeIsFirst(s: State)
    requires Inv(s)
    ensures s.free == First(s.freed) && (s.free.Some? ==> s.free.value in s.nodes)
    ensures s.writer.Linking? ==> s.tail == LastOf(s.chain) && s.writer.node in s.nodes
    ensures forall x :: Placed(s, x) ==> x in s.nodes
  {
    hide Nexts, Prevs, Distinct;
    NodesAllocated(ViewOf(s));
  }

  /** A step that only writes fields of nodes, or moves the writer on with the same node in its hands. */
  lemma PlacesKept(s: State, s': State)
    requires Accounted(s) && s'.nodes.Keys == s.nodes.Keys && Private(s.writer) <= Private(s'.writer)
    requires forall x :: x in s.chain ==> x in s'.chain
    requires s'.freed == s.freed && s'.leaked == s.leaked
    ensures Accounted(s')
  {
    forall x | x in s'.nodes ensures Placed(s', x) {
      assert x in s.nodes;
    }
  }

  lemma StoreKeepsKeys(s: State, p: Ptr, n: Node)
    ensures Store(s, p, n).nodes.Keys == s.nodes.Keys
    ensures Store(s, p, n) == s.(nodes := Store(s, p, n).nodes, fault := Store(s, p, n).fault)
  {
  }

  lemma TakingKeepsAccounted(s: State, address: nat)
    requires Inv(s) && s.writer.Inserting? && address !in s.nodes && Accounted(s)
    ensures Accounted(StepWriter(s, address)) && s.leaked <= StepWriter(s, address).leaked
  {
    hide Inv, Accounted, Store;
    FreeIsFirst(s);
    var s' := StepWriter(s, address);
    StoreKeepsKeys(s, s.free, Node(s.writer.value, None, None));
    assert s'.nodes.Keys == s.nodes.Keys + Private(s'.writer);
    Taken(s, s');
  }

  lemma Taken(s: State, s': State)
    requires Accounted(s) && s.writer.Inserting? && s'.chain == s.chain
      && s'.nodes.Keys == s.nodes.Keys + Private(s'.writer)
    requires s.leaked <= s'.leaked
    requires forall x :: x in s.freed ==> x in s'.freed || x in s'.leaked || x in Private(s'.writer)
    ensures Accounted(s')
  {
    forall x | x in s'.nodes ensures Placed(s', x) {
      assert x in s.nodes.Keys || x in Private(s'.writer);
    }
  }

  lemma LinkingKeepsAccounted(s: State, address: nat)
    requires Inv(s) && s.writer.Linking? && Accounted(s)
    ensures Accounted(StepWriter(s, address)) && s.leaked == StepWriter(s, address).leaked
  {
    hide Inv, Accounted, Store;
    FreeIsFirst(s);
    var s' := StepWriter(s, address);
    StoreKeepsKeys(s, Some(s.writer.node), At(s, Some(s.writer.node)).(next := s.head, prev := None));
    StoreKeepsKeys(s, s.tail, At(s, s.tail).(next := Some(s.writer.node)));
    if s.tail.Some? && !s.writer.front {
      LinkBackStep(s, address);
      LinkedNode(s, s', s.writer.node);
    } else {
      PlacesKept(s, s');
    }
  }

  /** The writer's node has been linked. */
  lemma LinkedNode(s: State, s': State, n: nat)
    requires Accounted(s) && s'.nodes.Keys == s.nodes.Keys && Private(s.writer) == {n} && s'.freed == s.freed
      && s'.leaked == s.leaked
    requires s'.chain == s.chain + [n] || s'.chain == [n] + s.chain
    ensures Accounted(s')
  {
    forall x | x in s'.nodes ensures Placed(s', x) {
      assert x in s.nodes;
    }
  }

  lemma PublishingKeepsAccounted(s: State, address: nat)
    requires Inv(s) && !s.writer.Idle? && !Removing(s.writer) && !s.writer.Inserting? && !s.writer.Linking?
      && Accounted(s)
    ensures Accounted(StepWriter(s, address)) && s.leaked == StepWriter(s, address).leaked
  {
    hide Inv, Accounted, StepWriter, Sound;
    var s' := StepWriter(s, address);
    InsertionEffect(s, address);
    if s.writer.FirstTail? || s.writer.FrontPrev? {
      LinkedNode(s, s', s.writer.node);
    } else {
      PlacesKept(s, s');
    }
  }

  lemma RemovalKeepsAccounted(s: State, address: nat)
    requires Removing(s.writer) && Accounted(s)
    ensures Accounted(StepWriter(s, address)) && s.leaked == StepWriter(s, address).leaked
  {
    hide Accounted, StepWriter;
    var w := s.writer;
    if w.Found? {
      UnlinkingKeepsNodes(s);
      FoundUnlinks(s, address);
    } else if w.Chained? || w.Deleting? {
      ReleaseKeepsAccounted(s, address);
    } else if w.Unlinked? {
      DetachingKeepsAccounted(s, address);
    } else if w.Recycling? {
      RecyclingKeepsAccounted(s, address);
    } else {
      LookingKeepsAccounted(s, address);
    }
  }

  lemma FoundUnlinks(s: State, address: nat)
    requires s.writer.Found?
    ensures StepWriter(s, address) == Unlink(s, s.writer.item)
  {
    hide TakeNode, LinkNode, SwapHead, Unlink, DetachNode, ChainFree;
  }

  lemma LookingKeepsAccounted(s: State, address: nat)
    requires (s.writer.Searching? || s.writer.Detached?) && Accounted(s)
    ensures Accounted(StepWriter(s, address)) && s.leaked == StepWriter(s, address).leaked
  {
    hide Accounted, TakeNode, LinkNode, SwapHead, Unlink, DetachNode, ChainFree;
    PlacesKept(s, StepWriter(s, address));
  }

  lemma RecyclingKeepsAccounted(s: State, address: nat)
    requires s.writer.Recycling? && Accounted(s)
    ensures Accounted(StepWriter(s, address)) && s.leaked == StepWriter(s, address).leaked
  {
    hide Accounted, Store, TakeNode, LinkNode, SwapHead, Unlink;
    StoreKeepsKeys(s, Some(s.writer.item), At(s, Some(s.writer.item)).(prev := None, next := s.free));
    PlacesKept(s, StepWriter(s, address));
  }

  lemma DetachingKeepsAccounted(s: State, address: nat)
    requires s.writer.Unlinked? && Accounted(s)
    ensures Accounted(StepWriter(s, address)) && s.leaked == StepWriter(s, address).leaked
  {
    hide Accounted, Store, TakeNode, LinkNode, SwapHead, Unlink;
    var n := At(s, Some(s.writer.item));
    StoreKeepsKeys(s, n.next, At(s, n.next).(prev := n.prev));
    PlacesKept(s, StepWriter(s, address));
  }

  lemma ReleaseKeepsAccounted(s: State, address: nat)
    requires (s.writer.Chained? || s.writer.Deleting?) && Accounted(s)
    ensures Accounted(StepWriter(s, address)) && s.leaked == StepWriter(s, address).leaked
  {
    hide Accounted, Store, TakeNode, LinkNode, SwapHead, Unlink;
    if s.writer.Chained? {
      StoreKeepsKeys(s, s.free, At(s, s.free).(prev := Some(s.writer.item)));
    }
    FreedOrDeleted(s, StepWriter(s, address));
  }

  lemma FreedOrDeleted(s: State, s': State)
    requires Accounted(s) && (s.writer.Chained? || s.writer.Deleting?) && s'.chain == s.chain && s'.leaked == s.leaked
    requires s.writer.Chained? ==> s'.nodes.Keys == s.nodes.Keys && s'.freed == [s.writer.item] + s.freed
    requires s.writer.Deleting? ==> s'.nodes.Keys == s.nodes.Keys - {s.writer.item} && s'.freed == s.freed
    ensures Accounted(s')
  {
    forall x | x in s'.nodes ensures Placed(s', x) {
      assert x in s.nodes;
    }
  }

  lemma UnlinkingKeepsNodes(s: State)
    requires s.writer.Found? && Accounted(s)
    ensures Accounted(Unlink(s, s.writer.item)) && Unlink(s, s.writer.item).leaked == s.leaked
  {
    hide Without, Accounted, NoteUnlinked, Store;
    var item := s.writer.item;
    var p := At(s, Some(item)).prev;
    StoreKeepsKeys(Touch(s, Some(item)), p, At(s, p).(next := At(s, Some(item)).next));
    OnlyOldNodes(s.chain, item);
    NodeUnlinked(s, Unlink(s, item), item);
  }

  lemma NodeUnlinked(s: State, s': State, item: nat)
    requires Accounted(s) && s'.nodes.Keys == s.nodes.Keys && s.writer.Found? && Private(s'.writer) == {item}
    requires s'.freed == s.freed && s'.leaked == s.leaked && forall x :: x in s.chain && x != item ==> x in s'.chain
    ensures Accounted(s')
  {
    forall x | x in s'.nodes ensures Placed(s', x) {
      assert x in s.nodes;
    }
  }

  lemma ReadersMoveNothing(s: State, step: Step)
    requires Enabled(s, step) && !step.WriterStep? && Accounted(s)
    ensures Accounted(Next(s, step)) && Next(s, step).leaked == s.leaked
  {
    hide StepWriter;
    forall x | x in s.nodes ensures Placed(Next(s, step), x) {
    }
  }

  lemma StepKeepsAccounted(s: State, step: Step)
    requires Inv(s) && Enabled(s, step) && Accounted(s)
    ensures Accounted(Next(s, step)) && s.leaked <= Next(s, step).leaked
  {
    hide Inv, StepWriter, Accounted, Placed;
    if !step.WriterStep? {
      ReadersMoveNothing(s, step);
    } else {
      if Removing(s.writer) {
        RemovalKeepsAccounted(s, step.address);
      } else if s.writer.Inserting? {
        TakingKeepsAccounted(s, step.address);
      } else if s.writer.Linking? {
        LinkingKeepsAccounted(s, step.address);
      } else {
        PublishingKeepsAccounted(s, step.address);
      }
    }
  }

  /**
   * Conservation: every node ever allocated and not deleted is in exactly one place, and a leaked node stays where it
   * is forever, allocated and out of reach of the list.
   */
  lemma {:induction false} NodesConserved(s: State, steps: seq<Step>)
    requires Inv(s) && Accounted(s) && Possible(s, steps)
    ensures
      var s' := Run(s, steps);
      && s'.nodes.Keys == Elements(s'.chain) + Elements(s'.freed) + s'.leaked + Private(s'.writer)
      && s.leaked <= s'.leaked
      && forall x :: x in s'.leaked ==> x !in s'.chain && x !in s'.freed && x !in Private(s'.writer)
    decreases steps
  {
    hide Inv, Next, Enabled, Accounted, Private;
    if steps != [] {
      StepKeepsInv(s, steps[0]);
      StepKeepsAccounted(s, steps[0]);
      NodesConserved(Next(s, steps[0]), steps[1..]);
    } else {
      KeptApart(s);
    }
  }

  /**
   * Nodes are deallocated by the last step of a removal that no reader has seen coming, and by nothing else. In
   * particular the last reader that leaves deallocates nothing, whatever waits on the free list.
   */
  lemma DeallocatedIff(s: State, step: Step, x: nat)
    requires Inv(s) && Enabled(s, step) && x in s.nodes
    ensures x !in Next(s, step).nodes <==> step.WriterStep? && s.writer == Deleting(x)
    ensures step.Leave? ==>
      var s' := Next(s, step);
      s'.nodes == s.nodes && s'.free == s.free && s'.freed == s.freed && s'.leaked == s.leaked
  {
    hide Inv, StepWriter, Store;
    if step.WriterStep? {
      KeysAfter(s, step.address);
    }
  }

  lemma KeysAfter(s: State, address: nat)
    ensures
      var keys := StepWriter(s, address).nodes.Keys;
      || keys == (if s.writer.Deleting? then s.nodes.Keys - {s.writer.item} else s.nodes.Keys)
      || (s.writer.Inserting? && keys == s.nodes.Keys + {address})
  {
    hide StepWriter;
    if Removing(s.writer) {
      RemovalKeys(s, address);
    } else if s.writer.Inserting? || s.writer.Linking? {
      TakingKeys(s, address);
    } else {
      PublishingKeys(s, address);
    }
  }

  lemma TakingKeys(s: State, address: nat)
    requires s.writer.Inserting? || s.writer.Linking?
    ensures
      var keys := StepWriter(s, address).nodes.Keys;
      keys == s.nodes.Keys || (s.writer.Inserting? && keys == s.nodes.Keys + {address})
  {
    hide Store, Unlink, DetachNode, ChainFree, SwapHead;
    var w := s.writer;
    if w.Inserting? {
      StoreKeepsKeys(s, s.free, Node(w.value, None, None));
    } else {
      StoreKeepsKeys(s, Some(w.node), At(s, Some(w.node)).(next := s.head, prev := None));
      StoreKeepsKeys(s, s.tail, At(s, s.tail).(next := Some(w.node)));
    }
  }

  lemma PublishingKeys(s: State, address: nat)
    requires !Removing(s.writer) && !s.writer.Inserting? && !s.writer.Linking?
    ensures StepWriter(s, address).nodes.Keys == s.nodes.Keys
  {
    hide Store, Unlink, DetachNode, ChainFree, TakeNode, LinkNode;
    var w := s.writer;
    if w.FrontNext? {
      StoreKeepsKeys(s, s.head, At(s, s.head).(prev := Some(w.node)));
    } else if w.BackLinked? {
      StoreKeepsKeys(s, Some(w.node), At(s, Some(w.node)).(prev := s.tail));
    }
  }

  lemma RemovalKeys(s: State, address: nat)
    requires Removing(s.writer)
    ensures
      var keys := StepWriter(s, address).nodes.Keys;
      keys == if s.writer.Deleting? then s.nodes.Keys - {s.writer.item} else s.nodes.Keys
  {
    hide Store, TakeNode, LinkNode, SwapHead, Unlink;
    var w := s.writer;
    match w
    case Found(item) => UnlinkKeepsKeys(s, item);
    case Unlinked(item) =>
      var n := At(s, Some(item));
      StoreKeepsKeys(s, n.next, At(s, n.next).(prev := n.prev));
    case Recycling(item) => StoreKeepsKeys(s, Some(item), At(s, Some(item)).(prev := None, next := s.free));
    case Chained(item) => StoreKeepsKeys(s, s.free, At(s, s.free).(prev := Some(item)));
    case _ =>
  }

  lemma UnlinkKeepsKeys(s: State, item: nat)
    ensures Unlink(s, item).nodes.Keys == s.nodes.Keys
  {
    hide Store, NoteUnlinked, Without;
    var p := At(s, Some(item)).prev;
    StoreKeepsKeys(Touch(s, Some(item)), p, At(s, p).(next := At(s, Some(item)).next));
  }

  lemma KeptApart(s: State)
    requires Inv(s) && Accounted(s)
    ensures s.nodes.Keys == Elements(s.chain) + Elements(s.freed) + s.leaked + Private(s.writer)
    ensures forall x :: x in s.leaked ==> x !in s.chain && x !in s.freed && x !in Private(s.writer)
  {
    hide Inv, Private;
    FreeIsFirst(s);
    LeakedApart(s);
    forall x | x in s.nodes ensures Placed(s, x) {
    }
  }

  lemma LeakedApart(s: State)
    requires Inv(s)
    ensures forall x :: x in s.leaked ==> x !in s.chain && x !in s.freed && x !in Private(s.writer)
    ensures Distinct(s.freed)
  {
    hide Nexts, Prevs, BackwardLinks;
  }

  /**
   * Taking a node from the free list loses all others: the node's link is reset before `_free` is moved on along it. A
   * free list of n nodes leaks n - 1 of them.
   */
  lemma RecyclingLeaks(s: State, address: nat)
    requires Inv(s) && s.writer.Inserting? && s.free.Some?
    ensures
      var s' := StepWriter(s, address);
      && s.freed != [] && s'.free == None && s'.writer == Linking(s.writer.front, s.freed[0])
      && s'.leaked == s.leaked + Elements(s.freed[1..])
      && |s'.leaked| == |s.leaked| + |s.freed| - 1
  {
    hide Inv, StepWriter, Distinct, Elements;
    FreeIsFirst(s);
    LeakedApart(s);
    TakingFirst(s, address);
    RestOfDistinct(s.freed);
    LeakCount(s.leaked, s.freed);
  }

  lemma LeakCount(leaked: set<nat>, c: seq<nat>)
    requires Distinct(c) && c != [] && forall x :: x in leaked ==> x !in c
    ensures |leaked + Elements(c[1..])| == |leaked| + |c| - 1
  {
    hide Distinct;
    RestIsDistinct(c);
    DistinctCount(c[1..]);
    RestOfDistinct(c);
    assert leaked !! Elements(c[1..]);
  }

  lemma TakingFirst(s: State, address: nat)
    requires s.writer.Inserting? && s.freed != [] && s.free == Some(s.freed[0]) && s.freed[0] in s.nodes
    ensures
      var s' := StepWriter(s, address);
      && s'.free == None && s'.writer == Linking(s.writer.front, s.freed[0])
      && s'.leaked == s.leaked + (set x | x in s.freed && Some(x) != s.free)
  {
  }

  lemma RestIsDistinct(c: seq<nat>)
    requires Distinct(c) && c != []
    ensures Distinct(c[1..])
  {
  }

  lemma RestOfDistinct(c: seq<nat>)
    requires Distinct(c) && c != []
    ensures (set x | x in c && Some(x) != Some(c[0])) == Elements(c[1..])
    ensures forall x :: x in c[1..] ==> x in c && x != c[0]
  {
    forall x | x in c && x != c[0] ensures x in c[1..] {
      var i :| 0 <= i < |c| && c[i] == x;
      assert c[1..][i - 1] == x;
    }
  }
}

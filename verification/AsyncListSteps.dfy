/** Each step of a reader or a writer keeps the invariant of `async_list`. */
module AsyncListSteps {
  import opened Common
  import opened AsyncList
  import opened AsyncListSafety

  /** A node for a new value: the first free one, which leaks the rest of the free list. */
  lemma RecycleStep(s: State, address: nat)
    requires Inv(s) && s.writer.Inserting? && s.free.Some?
    ensures Inv(StepWriter(s, address))
  {
    hide Sound, Holdable, StepWriter;
    var v := ViewOf(s);
    WriterFacts(v);
    var v' := WithRecycled(v, s.writer.value);
    Recycles(s, address);
    RecycledSound(v, s.writer.value);
    RecycledHoldable(v, s.writer.value);
    InvKept(s, StepWriter(s, address), v');
  }

  function WithRecycled(v: View, value: int): View
    requires v.freed != [] && v.writer.Inserting?
  {
    v.(free := None, freed := [], leaked := v.leaked + (set x | x in v.freed && x != v.freed[0]),
       nodes := v.nodes[v.freed[0] := Node(value, None, None)], writer := Linking(v.writer.front, v.freed[0]))
  }

  lemma Recycles(s: State, address: nat)
    requires s.writer.Inserting? && s.freed != [] && s.free == Some(s.freed[0]) && s.freed[0] in s.nodes
    ensures Becomes(s, StepWriter(s, address), WithRecycled(ViewOf(s), s.writer.value))
  {
    hide LinkNode, SwapHead, Unlink, DetachNode, ChainFree;
    var all, some := set x | x in s.freed && Some(x) != s.free, set x | x in s.freed && x != s.freed[0];
    assert all == some;
  }

  lemma RecycledHoldable(v: View, value: int)
    requires v.freed != [] && v.writer.Inserting?
    ensures forall x :: Holdable(v, x) ==> Holdable(WithRecycled(v, value), x)
  {
  }

  lemma RecycledSound(v: View, value: int)
    requires Sound(v) && v.writer.Inserting? && v.freed != [] && v.freed[0] in v.nodes
    ensures Sound(WithRecycled(v, value))
  {
    hide Nexts, Prevs, Distinct, Apart, ForwardLinks;
    var v' := WithRecycled(v, value);
    SoundApart(v);
    NodesAllocated(v);
    Recycled(v, Node(value, None, None), v');
    NodesAllocated'(v');
  }

  lemma Recycled(v: View, n: Node, v': View)
    requires Apart(v) && ForwardLinks(v) && v.writer.Inserting? && v.freed != [] && v.freed[0] in v.nodes
    requires n.next == None
    requires v' == v.(free := None, freed := [], leaked := v.leaked + (set x | x in v.freed && x != v.freed[0]),
                      nodes := v.nodes[v.freed[0] := n], writer := Linking(v.writer.front, v.freed[0]))
    ensures Apart(v') && ForwardLinks(v')
    ensures forall x :: x in v.chain ==> x in v.nodes && v'.nodes[x] == v.nodes[x]
    ensures Prevs(v.nodes, v.chain, -1) ==> Prevs(v'.nodes, v'.chain, -1)
  {
    hide Nexts, Prevs, Distinct, Apart;
    ApartFacts(v);
    assert v.freed[0] in v.freed;
    ApartRecycled(v, v');
    EmptyChain(v'.nodes);
    NextsFrame(v.nodes, v'.nodes, v.chain);
    LeakedClosed(v, v'.nodes, v'.leaked);
    if Prevs(v.nodes, v.chain, -1) {
      PrevsFrame(v.nodes, v'.nodes, v.chain, -1);
    }
  }

  lemma ApartRecycled(v: View, v': View)
    requires Apart(v) && v.writer.Inserting? && v.freed != [] && v'.nodes.Keys == v.nodes.Keys
    requires v' == v.(free := None, freed := [], leaked := v.leaked + (set x | x in v.freed && x != v.freed[0]),
                      nodes := v'.nodes, writer := Linking(v.writer.front, v.freed[0]))
    ensures Apart(v')
  {
    hide Distinct;
    assert v.freed[0] in v.freed;
    EmptyChain(v.nodes);
  }

  lemma FreeHeadAllocated(v: View)
    requires Sound(v) && v.free.Some?
    ensures v.freed != [] && v.free == Some(v.freed[0]) && v.freed[0] in v.nodes && v.freed[0] !in v.chain
  {
    assert v.freed[0] in v.freed;
  }

  lemma EmptyChain(nodes: map<nat, Node>)
    ensures Nexts(nodes, []) && Distinct<nat>([])
  {
  }

  /** A node for a new value: a new one. */
  lemma AllocateStep(s: State, address: nat)
    requires Inv(s) && s.writer.Inserting? && s.free.None? && address !in s.nodes
    ensures Inv(StepWriter(s, address))
  {
    hide Sound, Holdable, StepWriter;
    var v := ViewOf(s);
    var v' := v.(nodes := v.nodes[address := Node(s.writer.value, None, None)], writer := Linking(s.writer.front, address));
    Allocates(s, address);
    AllocatedSound(v, address, v');
    HoldableKept(v, v');
    InvKept(s, StepWriter(s, address), v');
  }

  lemma Allocates(s: State, address: nat)
    requires s.writer.Inserting? && s.free.None?
    ensures Becomes(s, StepWriter(s, address), ViewOf(s).(
      nodes := s.nodes[address := Node(s.writer.value, None, None)], writer := Linking(s.writer.front, address)))
  {
    hide LinkNode, SwapHead, Unlink, DetachNode, ChainFree;
  }

  lemma AllocatedSound(v: View, address: nat, v': View)
    requires Sound(v) && v.writer.Inserting? && address !in v.nodes
    requires v' == v.(nodes := v'.nodes, writer := Linking(v.writer.front, address))
    requires v'.nodes == v.nodes[address := Node(v.writer.value, None, None)]
    ensures Sound(v')
  {
    hide Nexts, Prevs, Distinct, Apart, ForwardLinks;
    SoundApart(v);
    NodesAllocated(v);
    Allocated(v, address, v');
    NodesAllocated'(v');
  }

  lemma Allocated(v: View, address: nat, v': View)
    requires Apart(v) && ForwardLinks(v) && v.writer.Inserting? && address !in v.nodes
    requires v' == v.(nodes := v'.nodes, writer := Linking(v.writer.front, address))
    requires v'.nodes.Keys == v.nodes.Keys + {address} && forall x :: x in v.nodes ==> v'.nodes[x] == v.nodes[x]
    ensures Apart(v') && ForwardLinks(v')
    ensures forall x :: x in v.chain ==> x in v.nodes
    ensures Prevs(v.nodes, v.chain, -1) ==> Prevs(v'.nodes, v'.chain, -1)
  {
    hide Nexts, Prevs, Distinct, Apart;
    ApartFacts(v);
    NextsFrame(v.nodes, v'.nodes, v.chain);
    NextsFrame(v.nodes, v'.nodes, v.freed);
    ApartAllocated(v, address, v');
    if Prevs(v.nodes, v.chain, -1) {
      PrevsFrame(v.nodes, v'.nodes, v.chain, -1);
    }
  }

  lemma ApartAllocated(v: View, address: nat, v': View)
    requires Apart(v) && v.writer.Inserting? && address !in v.nodes && v'.nodes.Keys == v.nodes.Keys + {address}
    requires v' == v.(nodes := v'.nodes, writer := Linking(v.writer.front, address))
    ensures Apart(v')
  {
    hide Distinct;
  }

  /** The first node of an empty list becomes its tail; the head follows in the next step. */
  lemma LinkFirstStep(s: State, address: nat)
    requires Inv(s) && s.writer.Linking? && s.tail.None?
    ensures Inv(StepWriter(s, address))
  {
    hide Sound, Holdable, StepWriter;
    var v := ViewOf(s);
    var v' := v.(tail := Some(s.writer.node), writer := FirstTail(s.writer.node));
    LinksFirst(s, address);
    LinkedFirstSound(v, v');
    HoldableKept(v, v');
    InvKept(s, StepWriter(s, address), v');
  }

  lemma LinksFirst(s: State, address: nat)
    requires s.writer.Linking? && s.tail.None?
    ensures Becomes(s, StepWriter(s, address), ViewOf(s).(tail := Some(s.writer.node), writer := FirstTail(s.writer.node)))
  {
    hide TakeNode, SwapHead, Unlink, DetachNode, ChainFree;
  }

  lemma LinkedFirstSound(v: View, v': View)
    requires Sound(v) && v.writer.Linking? && v.tail.None?
    requires v' == v.(tail := Some(v.writer.node), writer := FirstTail(v.writer.node))
    ensures Sound(v')
  {
    hide Nexts, Prevs, Distinct;
  }

  lemma LinkFrontStep(s: State, address: nat)
    requires Inv(s) && s.writer.Linking? && s.writer.front && s.tail.Some?
    ensures Inv(StepWriter(s, address))
  {
    hide Sound, Holdable, StepWriter;
    var v, n := ViewOf(s), s.writer.node;
    WriterFacts(v);
    var v' := v.(nodes := v.nodes[n := v.nodes[n].(next := v.head, prev := None)], writer := FrontNext(n));
    LinksFront(s, address);
    LinkedFrontSound(v, v');
    HoldableKept(v, v');
    InvKept(s, StepWriter(s, address), v');
  }

  lemma LinksFront(s: State, address: nat)
    requires s.writer.Linking? && s.writer.front && s.tail.Some? && s.writer.node in s.nodes
    ensures
      var n := s.writer.node;
      Becomes(s, StepWriter(s, address), ViewOf(s).(
        nodes := s.nodes[n := s.nodes[n].(next := s.head, prev := None)], writer := FrontNext(n)))
  {
    hide TakeNode, SwapHead, Unlink, DetachNode, ChainFree;
  }

  lemma LinkedFrontSound(v: View, v': View)
    requires Sound(v) && v.writer.Linking? && v.tail.Some? && v.writer.node in v.nodes
    requires v' == v.(nodes := v'.nodes, writer := FrontNext(v.writer.node))
    requires v'.nodes == v.nodes[v.writer.node := v.nodes[v.writer.node].(next := v.head, prev := None)]
    ensures Sound(v')
  {
    hide Nexts, Prevs, Distinct, Apart, ForwardLinks;
    NodesAllocated(v);
    SoundApart(v);
    OnlyPrivateChanged(v, v', -1);
    NodesAllocated'(v');
  }

  lemma NodesAllocated(v: View)
    requires Sound(v)
    ensures forall x :: x in v.chain || x in v.freed || x in v.leaked || x in Private(v.writer) ==> x in v.nodes
    ensures v.head == First(v.chain) && v.free == First(v.freed) && forall x :: x in Private(v.writer) ==> x !in v.chain
    ensures v.free.Some? ==> v.free.value in v.freed
    ensures v.chain != [] ==> v.chain[|v.chain| - 1] in v.nodes && v.nodes[v.chain[|v.chain| - 1]].next == None
  {
  }

  lemma NodesAllocated'(v: View)
    requires Apart(v) && ForwardLinks(v)
    ensures forall x :: x in v.chain || x in v.freed || x in v.leaked || x in Private(v.writer) ==> x in v.nodes
    ensures v.head == First(v.chain)
  {
  }

  /** The swap of the tail's next pointer adds the node at the end, for readers too. */
  lemma LinkBackStep(s: State, address: nat)
    requires Inv(s) && s.writer.Linking? && !s.writer.front && s.tail.Some?
    ensures Inv(StepWriter(s, address)) && StepWriter(s, address).chain == s.chain + [s.writer.node]
  {
    hide Sound, Holdable, StepWriter;
    var v := ViewOf(s);
    WriterFacts(v);
    LinksBack(s, address);
    LinkedBackSound(v);
    LinkedBackHoldable(v);
    InvKept(s, StepWriter(s, address), WithLast(v));
  }

  function WithLast(v: View): View
    requires v.writer.Linking? && v.chain != [] && v.chain[|v.chain| - 1] in v.nodes
  {
    var t := v.chain[|v.chain| - 1];
    v.(nodes := v.nodes[t := v.nodes[t].(next := Some(v.writer.node))], writer := BackLinked(v.writer.node),
       chain := v.chain + [v.writer.node])
  }

  lemma LinksBack(s: State, address: nat)
    requires s.writer.Linking? && !s.writer.front && s.tail.Some? && s.tail == LastOf(s.chain)
    requires s.tail.value in s.nodes && s.nodes[s.tail.value].next == None
    ensures Becomes(s, StepWriter(s, address), WithLast(ViewOf(s)))
  {
    hide TakeNode, SwapHead, Unlink, DetachNode, ChainFree;
  }

  lemma LinkedBackHoldable(v: View)
    requires v.writer.Linking? && v.chain != [] && v.chain[|v.chain| - 1] in v.nodes
    ensures forall x :: Holdable(v, x) ==> Holdable(WithLast(v), x)
  {
  }

  lemma LinkedBackSound(v: View)
    requires Sound(v) && v.writer.Linking? && !v.writer.front && v.chain != [] && v.chain[|v.chain| - 1] in v.nodes
    ensures Sound(WithLast(v))
  {
    hide Nexts, Prevs, Distinct, Apart, ForwardLinks;
    NodesAllocated(v);
    SoundApart(v);
    BackAppended(v, v.writer.node, WithLast(v));
    NodesAllocated'(WithLast(v));
  }

  lemma BackAppended(v: View, n: nat, v': View)
    requires Apart(v) && ForwardLinks(v) && v.chain != [] && Prevs(v.nodes, v.chain, -1)
    requires v.writer == Linking(false, n) && n in v.nodes && v.nodes[n].next == None
    requires
      var t := v.chain[|v.chain| - 1];
      t in v.nodes && v' == v.(nodes := v.nodes[t := v.nodes[t].(next := Some(n))], writer := BackLinked(n), chain := v.chain + [n])
    ensures v.nodes[v.chain[|v.chain| - 1]].next == None
    ensures Apart(v') && ForwardLinks(v') && Prevs(v'.nodes, v'.chain, |v.chain|)
  {
    hide Nexts, Prevs, Distinct, Apart;
    ApartFacts(v);
    TailNode(v.nodes, v.chain);
    NextsSnoc(v.nodes, v.chain, n, v'.nodes);
    PrevsSnoc(v.nodes, v.chain, n, v'.nodes);
    NextsFrame(v.nodes, v'.nodes, v.freed);
    ApartAppended(v, n, v');
    FirstAppended(v.chain, n);
  }

  lemma FirstAppended(c: seq<nat>, n: nat)
    requires c != []
    ensures First(c + [n]) == First(c)
  {
  }

  lemma ApartFacts(v: View)
    requires Apart(v)
    ensures Distinct(v.chain) && Distinct(v.freed)
    ensures forall x :: x in v.chain ==> x in v.nodes && x !in v.freed && x !in v.leaked && x !in Private(v.writer)
    ensures forall x :: x in v.freed ==> x in v.nodes && x !in v.leaked && x !in Private(v.writer)
    ensures forall x :: x in v.leaked ==> x in v.nodes && x !in Private(v.writer)
    ensures forall x :: x in Private(v.writer) ==> x in v.nodes
    ensures v.chain != [] ==> v.chain[|v.chain| - 1] in v.chain
  {
    hide Distinct;
  }

  lemma ApartAppended(v: View, n: nat, v': View)
    requires Apart(v) && v.writer == Linking(false, n) && v'.nodes.Keys == v.nodes.Keys
    requires v' == v.(nodes := v'.nodes, writer := BackLinked(n), chain := v.chain + [n])
    ensures Apart(v')
  {
    hide Distinct;
    DistinctSnoc(v.chain, n);
  }

  lemma TailNode(nodes: map<nat, Node>, c: seq<nat>)
    requires Nexts(nodes, c) && c != []
    ensures c[|c| - 1] in nodes && nodes[c[|c| - 1]].next == None && c[|c| - 1] in c
  {
  }

  lemma NextsSnoc(nodes: map<nat, Node>, c: seq<nat>, n: nat, nodes': map<nat, Node>)
    requires Nexts(nodes, c) && Distinct(c) && c != [] && n in nodes && n !in c && nodes[n].next == None
    requires nodes' == nodes[c[|c| - 1] := nodes[c[|c| - 1]].(next := Some(n))]
    ensures Nexts(nodes', c + [n])
  {
  }

  lemma PrevsSnoc(nodes: map<nat, Node>, c: seq<nat>, n: nat, nodes': map<nat, Node>)
    requires (forall x :: x in c ==> x in nodes) && Prevs(nodes, c, -1) && c != [] && n in nodes
    requires nodes' == nodes[c[|c| - 1] := nodes[c[|c| - 1]].(next := Some(n))]
    ensures (forall x :: x in c + [n] ==> x in nodes') && Prevs(nodes', c + [n], |c|)
  {
  }

  lemma DistinctSnoc(c: seq<nat>, n: nat)
    requires Distinct(c) && n !in c
    ensures Distinct(c + [n]) && Distinct([n] + c)
  {
  }

  /** The head of an empty list: the compare-and-swap finds null. */
  lemma FirstTailStep(s: State, address: nat)
    requires Inv(s) && s.writer.FirstTail?
    ensures Inv(StepWriter(s, address)) && StepWriter(s, address).chain == [s.writer.node] + s.chain
  {
    hide Sound, Holdable, StepWriter;
    var v := ViewOf(s);
    WriterFacts(v);
    SwapsHead(s, address);
    FirstLinkedSound(v);
    PublishedHoldable(v);
    InvKept(s, StepWriter(s, address), WithFirst(v));
  }

  function WithFirst(v: View): View
    requires v.writer.FirstTail? || v.writer.FrontPrev?
  {
    v.(head := Some(v.writer.node), writer := Idle, chain := [v.writer.node] + v.chain)
  }

  lemma SwapsHead(s: State, address: nat)
    requires s.writer.FirstTail? || s.writer.FrontPrev?
    requires s.writer.node in s.nodes && s.nodes[s.writer.node].next == s.head
      && (s.writer.FirstTail? ==> s.head == None)
    ensures Becomes(s, StepWriter(s, address), WithFirst(ViewOf(s)))
  {
    hide TakeNode, LinkNode, Unlink, DetachNode, ChainFree;
  }

  lemma PublishedHoldable(v: View)
    requires v.writer.FirstTail? || v.writer.FrontPrev?
    ensures forall x :: Holdable(v, x) ==> Holdable(WithFirst(v), x)
  {
  }

  lemma FirstLinkedSound(v: View)
    requires Sound(v) && v.writer.FirstTail?
    ensures Sound(WithFirst(v))
  {
    hide Nexts, Apart, ForwardLinks;
    NodesAllocated(v);
    SoundApart(v);
    WriterFacts(v);
    FrontPublished(v, v.writer.node, WithFirst(v));
    PrevsCons(v.nodes, v.chain, v.writer.node);
    NodesAllocated'(WithFirst(v));
  }

  /** Putting a private node whose next link already leads to the head in front. */
  lemma FrontPublished(v: View, n: nat, v': View)
    requires Apart(v) && ForwardLinks(v) && (v.writer == FirstTail(n) || v.writer == FrontPrev(n))
    requires n in v.nodes && v.nodes[n].next == v.head
    requires v' == v.(head := Some(n), writer := Idle, chain := [n] + v.chain)
    ensures Apart(v') && ForwardLinks(v')
  {
    NextsCons(v.nodes, v.chain, n);
    DistinctSnoc(v.chain, n);
  }

  lemma NextsCons(nodes: map<nat, Node>, c: seq<nat>, n: nat)
    requires Nexts(nodes, c) && n in nodes && nodes[n].next == First(c)
    ensures Nexts(nodes, [n] + c)
  {
  }

  lemma PrevsCons(nodes: map<nat, Node>, c: seq<nat>, n: nat)
    requires (forall x :: x in c ==> x in nodes) && Prevs(nodes, c, 0) && n in nodes
    requires nodes[n].prev == None && (c != [] ==> nodes[c[0]].prev == Some(n))
    ensures Prevs(nodes, [n] + c, -1)
  {
  }

  /** Storing one `_prev` link: a hole opens, or closes if the link is the right one. */
  lemma PrevsSet(nodes: map<nat, Node>, c: seq<nat>, hole: int, i: nat, p: Ptr)
    requires (forall x :: x in c ==> x in nodes) && Prevs(nodes, c, hole) && Distinct(c) && i < |c|
    requires hole == i || hole == -1
    ensures
      var nodes' := nodes[c[i] := nodes[c[i]].(prev := p)];
      Prevs(nodes', c, if p == (if i == 0 then None else Some(c[i - 1])) then -1 else i)
  {
  }

  lemma FrontNextStep(s: State, address: nat)
    requires Inv(s) && s.writer.FrontNext?
    ensures Inv(StepWriter(s, address))
  {
    hide Sound, Holdable, StepWriter;
    var v, n := ViewOf(s), s.writer.node;
    WriterFacts(v);
    var h := v.chain[0];
    var v' := v.(nodes := v.nodes[h := v.nodes[h].(prev := Some(n))], writer := FrontPrev(n));
    StoresHead(s, address);
    FrontNextSound(v, v');
    HoldableKept(v, v');
    InvKept(s, StepWriter(s, address), v');
  }

  lemma StoresHead(s: State, address: nat)
    requires s.writer.FrontNext? && s.head.Some? && s.head.value in s.nodes
    ensures
      var h, n := s.head.value, s.writer.node;
      Becomes(s, StepWriter(s, address), ViewOf(s).(
        nodes := s.nodes[h := s.nodes[h].(prev := Some(n))], writer := FrontPrev(n)))
  {
    hide TakeNode, LinkNode, SwapHead, Unlink, DetachNode, ChainFree;
  }

  lemma FrontNextSound(v: View, v': View)
    requires Sound(v) && v.writer.FrontNext? && v.chain != [] && v.chain[0] in v.nodes
    requires v' == v.(nodes := v'.nodes, writer := FrontPrev(v.writer.node))
    requires v'.nodes == v.nodes[v.chain[0] := v.nodes[v.chain[0]].(prev := Some(v.writer.node))]
    ensures Sound(v')
  {
    hide Nexts, Prevs, Apart, ForwardLinks;
    NodesAllocated(v);
    SoundApart(v);
    NextsUntouched(v, v');
    PrevsSet(v.nodes, v.chain, -1, 0, Some(v.writer.node));
    NodesAllocated'(v');
  }

  lemma FrontPrevStep(s: State, address: nat)
    requires Inv(s) && s.writer.FrontPrev?
    ensures Inv(StepWriter(s, address)) && StepWriter(s, address).chain == [s.writer.node] + s.chain
  {
    hide Sound, Holdable, StepWriter;
    var v := ViewOf(s);
    WriterFacts(v);
    SwapsHead(s, address);
    FrontLinkedSound(v);
    PublishedHoldable(v);
    InvKept(s, StepWriter(s, address), WithFirst(v));
  }

  lemma FrontLinkedSound(v: View)
    requires Sound(v) && v.writer.FrontPrev?
    ensures Sound(WithFirst(v))
  {
    hide Nexts, Prevs, Apart, ForwardLinks;
    NodesAllocated(v);
    SoundApart(v);
    FrontPublished(v, v.writer.node, WithFirst(v));
    PrevsCons(v.nodes, v.chain, v.writer.node);
    NodesAllocated'(WithFirst(v));
  }

  lemma BackLinkedStep(s: State, address: nat)
    requires Inv(s) && s.writer.BackLinked?
    ensures Inv(StepWriter(s, address))
  {
    hide Sound, Holdable, StepWriter;
    var v, n := ViewOf(s), s.writer.node;
    WriterFacts(v);
    var v' := v.(nodes := v.nodes[n := v.nodes[n].(prev := v.tail)], writer := BackPrev(n));
    StoresPrev(s, address);
    BackLinkedSound(v, v');
    HoldableKept(v, v');
    InvKept(s, StepWriter(s, address), v');
  }

  lemma StoresPrev(s: State, address: nat)
    requires s.writer.BackLinked? && s.writer.node in s.nodes
    ensures
      var n := s.writer.node;
      Becomes(s, StepWriter(s, address), ViewOf(s).(
        nodes := s.nodes[n := s.nodes[n].(prev := s.tail)], writer := BackPrev(n)))
  {
    hide TakeNode, LinkNode, SwapHead, Unlink, DetachNode, ChainFree;
  }

  lemma BackLinkedSound(v: View, v': View)
    requires Sound(v) && v.writer.BackLinked? && v.writer.node in v.nodes
    requires v' == v.(nodes := v.nodes[v.writer.node := v.nodes[v.writer.node].(prev := v.tail)], writer := BackPrev(v.writer.node))
    ensures Sound(v')
  {
    hide Nexts, Prevs, Apart, ForwardLinks;
    NodesAllocated(v);
    SoundApart(v);
    NextsUntouched(v, v');
    PrevsSet(v.nodes, v.chain, |v.chain| - 1, |v.chain| - 1, v.tail);
    NodesAllocated'(v');
  }

  lemma BackPrevStep(s: State, address: nat)
    requires Inv(s) && s.writer.BackPrev?
    ensures Inv(StepWriter(s, address))
  {
    hide Sound, Holdable, StepWriter;
    var v := ViewOf(s);
    var v' := v.(tail := Some(s.writer.node), writer := Idle);
    StoresTail(s, address);
    BackPrevSound(v, v');
    HoldableKept(v, v');
    InvKept(s, StepWriter(s, address), v');
  }

  lemma StoresTail(s: State, address: nat)
    requires s.writer.BackPrev?
    ensures Becomes(s, StepWriter(s, address), ViewOf(s).(tail := Some(s.writer.node), writer := Idle))
  {
    hide TakeNode, LinkNode, SwapHead, Unlink, DetachNode, ChainFree;
  }

  lemma BackPrevSound(v: View, v': View)
    requires Sound(v) && v.writer.BackPrev? && v' == v.(tail := Some(v.writer.node), writer := Idle)
    ensures Sound(v')
  {
    hide Nexts, Prevs, Distinct;
  }

  lemma SearchesOn(nodes: map<nat, Node>, c: seq<nat>, item: nat, at: Ptr)
    requires Nexts(nodes, c) && SearchesFrom(c, item, at)
    ensures at.None? ==> item !in c
    ensures at.Some? ==> at.value in c && at.value in nodes
    ensures at.Some? && at.value != item ==> SearchesFrom(c, item, nodes[at.value].next)
  {
    var k :| 0 <= k <= |c| && at == First(c[k..]) && item !in c[..k];
    if k < |c| {
      NextOnChain(nodes, c, k);
      assert c[..k + 1] == c[..k] + [c[k]];
    } else {
      assert c[..k] == c;
    }
  }

  /** The search of a removal: under the lock it sees the list as it is. */
  lemma SearchStep(s: State, address: nat)
    requires Inv(s) && s.writer.Searching?
    ensures Inv(StepWriter(s, address)) && StepWriter(s, address).chain == s.chain
    ensures StepWriter(s, address).writer.Idle? ==> s.writer.item !in s.chain
  {
    hide Sound, Holdable, StepWriter;
    var v := ViewOf(s);
    SearchFacts(v);
    var v' := v.(writer := SearchedOn(v));
    Searches(s, address);
    SearchSound(v, v');
    HoldableKept(v, v');
    InvKept(s, StepWriter(s, address), v');
  }

  function SearchedOn(v: View): Writer
    requires v.writer.Searching? && (v.writer.at.Some? ==> v.writer.at.value in v.nodes)
  {
    if v.writer.at.None? then Idle
    else if v.writer.at.value == v.writer.item then Found(v.writer.item)
    else Searching(v.writer.item, v.nodes[v.writer.at.value].next)
  }

  lemma SearchFacts(v: View)
    requires Sound(v) && v.writer.Searching?
    ensures v.writer.at.Some? ==> v.writer.at.value in v.nodes && v.writer.at.value in v.chain
    ensures v.writer.at.None? ==> v.writer.item !in v.chain
    ensures v.writer.at.Some? && v.writer.at.value != v.writer.item ==>
      SearchesFrom(v.chain, v.writer.item, v.nodes[v.writer.at.value].next)
  {
    hide Nexts, Prevs, Distinct, SearchesFrom;
    SearchesOn(v.nodes, v.chain, v.writer.item, v.writer.at);
  }

  lemma Searches(s: State, address: nat)
    requires s.writer.Searching? && (s.writer.at.Some? ==> s.writer.at.value in s.nodes)
    ensures Becomes(s, StepWriter(s, address), ViewOf(s).(writer := SearchedOn(ViewOf(s))))
  {
    hide TakeNode, LinkNode, SwapHead, Unlink, DetachNode, ChainFree;
  }

  lemma SearchSound(v: View, v': View)
    requires Sound(v) && v.writer.Searching? && (v.writer.at.Some? ==> v.writer.at.value in v.nodes)
    requires v' == v.(writer := SearchedOn(v))
    ensures Sound(v')
  {
    hide Nexts, Prevs, Distinct, SearchesFrom;
    SearchFacts(v);
  }

  lemma NextOnChain(nodes: map<nat, Node>, c: seq<nat>, k: nat)
    requires Nexts(nodes, c) && k < |c|
    ensures c[k] in nodes && nodes[c[k]].next == First(c[k + 1..])
  {
  }

  lemma {:induction false} WithoutAt(c: seq<nat>, k: nat)
    requires Distinct(c) && k < |c|
    ensures Without(c, c[k]) == c[..k] + c[k + 1..]
  {
    hide Distinct;
    TailDistinct(c);
    if k == 0 {
      WithoutAbsent(c[1..], c[0]);
      assert c[..0] + c[1..] == c[1..];
    } else {
      var rest := c[1..];
      assert rest[k - 1] == c[k] && c[k] in rest;
      WithoutAt(rest, k - 1);
      assert c[..k] + c[k + 1..] == [c[0]] + (rest[..k - 1] + rest[k..]);
    }
  }

  lemma TailDistinct(c: seq<nat>)
    requires Distinct(c) && c != []
    ensures Distinct(c[1..]) && c[0] !in c[1..]
  {
  }

  lemma {:induction false} WithoutAbsent(c: seq<nat>, x: nat)
    requires x !in c
    ensures Without(c, x) == c
  {
    if c != [] {
      WithoutAbsent(c[1..], x);
    }
  }

  lemma LinksMakeNexts(nodes: map<nat, Node>, c: seq<nat>)
    requires forall i :: 0 <= i < |c| ==> c[i] in nodes
    requires forall i {:trigger nodes[c[i]]} :: 0 <= i < |c| ==> nodes[c[i]].next == NextAt(c, i)
    ensures Nexts(nodes, c)
  {
  }

  /** The link at position `i` of the list without position `k`. */
  lemma LinkWithout(nodes: map<nat, Node>, c: seq<nat>, k: nat, nodes': map<nat, Node>, i: nat)
    requires Nexts(nodes, c) && Distinct(c) && k < |c| && i < |c| - 1 && c[k] in nodes && (k > 0 ==> c[k - 1] in nodes)
    requires nodes' == if k == 0 then nodes else nodes[c[k - 1] := nodes[c[k - 1]].(next := nodes[c[k]].next)]
    ensures
      var d := c[..k] + c[k + 1..];
      d[i] in nodes' && nodes'[d[i]].next == NextAt(d, i)
  {
    hide Nexts;
    var d := c[..k] + c[k + 1..];
    LinkAt(nodes, c, if i < k then i else i + 1);
    LinkAt(nodes, c, k);
  }

  lemma NextsWithout(nodes: map<nat, Node>, c: seq<nat>, k: nat, nodes': map<nat, Node>)
    requires Nexts(nodes, c) && Distinct(c) && k < |c| && c[k] in nodes && (k > 0 ==> c[k - 1] in nodes)
    requires nodes' == if k == 0 then nodes else nodes[c[k - 1] := nodes[c[k - 1]].(next := nodes[c[k]].next)]
    ensures Nexts(nodes', c[..k] + c[k + 1..])
    ensures k > 0 ==> nodes[c[k - 1]].next == Some(c[k])
    ensures First(c[..k] + c[k + 1..]) == if k == 0 then nodes[c[0]].next else First(c)
  {
    hide Nexts, Distinct;
    var d := c[..k] + c[k + 1..];
    forall i {:trigger nodes'[d[i]]} | 0 <= i < |d| ensures d[i] in nodes' && nodes'[d[i]].next == NextAt(d, i) {
      LinkWithout(nodes, c, k, nodes', i);
    }
    LinksMakeNexts(nodes', d);
    LinkAt(nodes, c, 0);
    if k > 0 {
      LinkAt(nodes, c, k - 1);
    }
  }

  lemma PrevsWithout(nodes: map<nat, Node>, c: seq<nat>, k: nat, nodes': map<nat, Node>)
    requires (forall x :: x in c ==> x in nodes) && Prevs(nodes, c, -1) && k < |c|
    requires nodes' == if k == 0 then nodes else nodes[c[k - 1] := nodes[c[k - 1]].(next := nodes[c[k]].next)]
    ensures (forall x :: x in c[..k] + c[k + 1..] ==> x in nodes') && Prevs(nodes', c[..k] + c[k + 1..], k)
    ensures nodes[c[k]].prev == if k == 0 then None else Some(c[k - 1])
  {
  }

  lemma DistinctWithout(c: seq<nat>, k: nat)
    requires Distinct(c) && k < |c|
    ensures Distinct(c[..k] + c[k + 1..]) && c[k] !in c[..k] + c[k + 1..]
    ensures forall x :: x in c <==> x == c[k] || x in c[..k] + c[k + 1..]
  {
    var d := c[..k] + c[k + 1..];
    forall x | x in c ensures x == c[k] || x in d {
      var i :| 0 <= i < |c| && c[i] == x;
      if i < k {
        assert d[i] == x;
      } else if i > k {
        assert d[i - 1] == x;
      }
    }
  }

  /** The memory after the node at position `k` has been unlinked. */
  function WithoutNode(v: View, k: nat): View
    requires k < |v.chain| && v.chain[k] in v.nodes && (k > 0 ==> v.chain[k - 1] in v.nodes)
  {
    var c' := v.chain[..k] + v.chain[k + 1..];
    v.(head := First(c'), chain := c', writer := Unlinked(v.chain[k]),
       nodes := if k == 0 then v.nodes
                else v.nodes[v.chain[k - 1] := v.nodes[v.chain[k - 1]].(next := v.nodes[v.chain[k]].next)])
  }

  /** The linked part after a node at position `k` has been unlinked. */
  lemma ChainWithout(v: View, k: nat, v': View)
    requires Apart(v) && ForwardLinks(v) && k < |v.chain| && v.chain[k] in v.nodes && v.writer == Found(v.chain[k])
    requires k > 0 ==> v.chain[k - 1] in v.nodes
    requires v' == WithoutNode(v, k)
    ensures Apart(v') && ForwardLinks(v')
  {
    hide Nexts, Prevs, Distinct, Apart;
    ApartFacts(v);
    NextsWithout(v.nodes, v.chain, k, v'.nodes);
    assert k > 0 ==> v.chain[k - 1] in v.chain;
    NextsFrame(v.nodes, v'.nodes, v.freed);
    ApartWithout(v, k, v');
  }

  lemma ApartWithout(v: View, k: nat, v': View)
    requires Apart(v) && k < |v.chain| && v.writer == Found(v.chain[k]) && v'.nodes.Keys == v.nodes.Keys
    requires v' == v.(head := v'.head, chain := v.chain[..k] + v.chain[k + 1..], writer := Unlinked(v.chain[k]), nodes := v'.nodes)
    ensures Apart(v')
  {
    hide Distinct;
    assert v.chain[k] in v.chain;
    DistinctWithout(v.chain, k);
  }

  /** The compare-and-swap that unlinks a node: from here on no reader comes to it through the list. */
  lemma UnlinkStep(s: State, address: nat)
    requires Inv(s) && s.writer.Found?
    ensures Inv(StepWriter(s, address)) && StepWriter(s, address).chain == Without(s.chain, s.writer.item)
  {
    hide Sound, Holdable, WithoutNode, Without, StepWriter;
    var v := ViewOf(s);
    FoundIsLinked(v);
    var k :| 0 <= k < |v.chain| && v.chain[k] == s.writer.item;
    Unlinks(s, address, k);
    UnlinkedSound(v, k, ViewOf(StepWriter(s, address)));
    ReadersKept(s, StepWriter(s, address));
  }

  lemma FoundIsLinked(v: View)
    requires Sound(v) && v.writer.Found?
    ensures v.writer.item in v.chain && Distinct(v.chain)
  {
  }

  lemma UnlinkedSound(v: View, k: nat, v': View)
    requires Sound(v) && v.writer.Found? && k < |v.chain| && v.chain[k] == v.writer.item
    requires v.chain[k] in v.nodes && (k > 0 ==> v.chain[k - 1] in v.nodes)
    requires v' == WithoutNode(v, k)
    ensures Sound(v') && forall x :: Holdable(v, x) ==> Holdable(v', x)
  {
    hide Nexts, Prevs, Distinct, Apart, ForwardLinks, JustUnlinked, Holdable, BackwardLinks, Sound, WithoutNode;
    NodesAllocated(v);
    SoundApart(v);
    FoundLinks(v);
    LinkedForward(v);
    ChainWithout(v, k, v');
    UnlinkedLinks(v, k, v');
    NodesAllocated'(v');
    WithoutNodeParts(v, k);
    UnlinkedHoldable(v, k, v');
    AfterUnlinking(v', v.chain[k], k);
  }

  lemma WithoutNodeParts(v: View, k: nat)
    requires k < |v.chain| && v.chain[k] in v.nodes && (k > 0 ==> v.chain[k - 1] in v.nodes)
    ensures
      var v' := WithoutNode(v, k);
      && v'.writer == Unlinked(v.chain[k]) && v'.chain == v.chain[..k] + v.chain[k + 1..]
      && v'.freed == v.freed && v'.leaked == v.leaked
  {
  }

  lemma FoundLinks(v: View)
    requires Sound(v) && v.writer.Found?
    ensures v.tail == LastOf(v.chain) && (forall x :: x in v.chain ==> x in v.nodes) && Prevs(v.nodes, v.chain, -1)
  {
    hide Nexts, Prevs, Distinct, ForwardLinks;
  }

  lemma AfterUnlinking(v: View, n: nat, k: nat)
    requires Apart(v) && ForwardLinks(v) && v.writer == Unlinked(n)
    requires n in v.nodes && k <= |v.chain| && (forall i :: 0 <= i < |v.chain| ==> v.chain[i] in v.nodes)
      && JustUnlinked(v, n, k)
    ensures Sound(v)
  {
    hide Nexts, Prevs, Distinct, Apart, ForwardLinks, JustUnlinked;
  }

  lemma LinkedForward(v: View)
    requires Sound(v)
    ensures Nexts(v.nodes, v.chain) && Nexts(v.nodes, v.freed)
  {
  }

  lemma Unlinks(s: State, address: nat, k: nat)
    requires Inv(s) && s.writer.Found? && k < |s.chain| && s.chain[k] == s.writer.item
    ensures s.chain[k] in s.nodes && (k > 0 ==> s.chain[k - 1] in s.nodes)
    ensures
      var s' := StepWriter(s, address);
      && !s'.fault && !s'.casFailed && s'.chain == Without(s.chain, s.chain[k])
      && s'.refcount == s.refcount && s'.readers == (map t | t in s.readers :: NoteUnlinked(s.readers[t], s.chain[k]))
      && ViewOf(s') == WithoutNode(ViewOf(s), k)
  {
    hide Nexts, Prevs, Distinct, Without, TakeNode, LinkNode, SwapHead, DetachNode, ChainFree;
    var v := ViewOf(s);
    assert s.chain[k] in s.chain && (k > 0 ==> s.chain[k - 1] in s.chain);
    WithoutAt(s.chain, k);
    NextsWithout(v.nodes, v.chain, k, WithoutNode(v, k).nodes);
    PrevsWithout(v.nodes, v.chain, k, WithoutNode(v, k).nodes);
    HeadOnce(v.chain, k);
  }

  lemma HeadOnce(c: seq<nat>, k: nat)
    requires Distinct(c) && k < |c|
    ensures c[0] == c[k] <==> k == 0
  {
  }

  lemma UnlinkedLinks(v: View, k: nat, v': View)
    requires k < |v.chain| && (forall x :: x in v.chain ==> x in v.nodes) && Distinct(v.chain)
    requires v.chain[k] in v.nodes && (k > 0 ==> v.chain[k - 1] in v.nodes)
    requires Nexts(v.nodes, v.chain) && Prevs(v.nodes, v.chain, -1) && v.tail == LastOf(v.chain)
    requires v' == WithoutNode(v, k)
    ensures v.chain[k] in v'.nodes && k <= |v'.chain| && forall i :: 0 <= i < |v'.chain| ==> v'.chain[i] in v'.nodes
    ensures JustUnlinked(v', v.chain[k], k)
  {
    hide Nexts, Prevs, Distinct;
    PrevsWithout(v.nodes, v.chain, k, v'.nodes);
    NextOnChain(v.nodes, v.chain, k);
    HeadOnce(v.chain, k);
    SuccessorOf(v.chain, k);
  }

  lemma SuccessorOf(c: seq<nat>, k: nat)
    requires k < |c|
    ensures
      var d := c[..k] + c[k + 1..];
      && First(c[k + 1..]) == (if k < |d| then Some(d[k]) else None)
      && (k > 0 ==> d[k - 1] == c[k - 1])
      && LastOf(c) == (if k == |d| then Some(c[k]) else LastOf(d))
  {
  }

  lemma UnlinkedHoldable(v: View, k: nat, v': View)
    requires k < |v.chain| && Distinct(v.chain) && v.writer == Found(v.chain[k]) && v'.writer == Unlinked(v.chain[k])
    requires v'.chain == v.chain[..k] + v.chain[k + 1..] && v'.freed == v.freed && v'.leaked == v.leaked
    ensures forall x :: Holdable(v, x) ==> Holdable(v', x)
  {
    DistinctWithout(v.chain, k);
  }

  /** The neighbours learn of the removal. */
  lemma DetachStep(s: State, address: nat)
    requires Inv(s) && s.writer.Unlinked?
    ensures Inv(StepWriter(s, address)) && StepWriter(s, address).chain == s.chain
  {
    hide Sound, Holdable, StepWriter, JustUnlinked, Prevs, Nexts, Apart, ForwardLinks;
    var v := ViewOf(s);
    NodesAllocated(v);
    SoundApart(v);
    UnlinkedAt(v);
    var k :| 0 <= k <= |v.chain| && JustUnlinked(v, s.writer.item, k);
    Detaches(s, address, k);
    var v' := ViewOf(StepWriter(s, address));
    DetachedSound(v, v');
    HoldableKept(v, v');
    InvKept(s, StepWriter(s, address), v');
  }

  lemma UnlinkedAt(v: View)
    requires Sound(v) && v.writer.Unlinked? && v.writer.item in v.nodes && forall x :: x in v.chain ==> x in v.nodes
    ensures exists k :: 0 <= k <= |v.chain| && JustUnlinked(v, v.writer.item, k)
  {
    hide Apart, ForwardLinks, JustUnlinked;
  }

  lemma DetachedSound(v: View, v': View)
    requires Sound(v) && v.writer.Unlinked? && v.writer.item in v.nodes
    requires v' == v.(nodes := v'.nodes, tail := LastOf(v.chain), writer := Detached(v.writer.item))
    requires v'.nodes.Keys == v.nodes.Keys && v'.nodes[v.writer.item] == v.nodes[v.writer.item]
    requires forall x :: x in v.nodes ==> v'.nodes[x].next == v.nodes[x].next
    requires (forall x :: x in v.chain ==> x in v'.nodes) && Prevs(v'.nodes, v.chain, -1)
    requires v.nodes[v.writer.item].next == None || v.nodes[v.writer.item].next.value in v.chain
    ensures Sound(v')
  {
    hide Nexts, Prevs, Apart, ForwardLinks, JustUnlinked;
    SoundApart(v);
    NextsUntouched(v, v');
    NodesAllocated'(v');
  }

  lemma DetachStores(s: State, item: nat)
    requires item in s.nodes && (s.nodes[item].next.Some? ==> s.nodes[item].next.value in s.nodes)
    ensures
      var n := s.nodes[item];
      DetachNode(s, item) ==
      if n.next.Some? then
        var after := n.next.value;
        s.(nodes := s.nodes[after := s.nodes[after].(prev := n.prev)], writer := Detached(item))
      else s.(tail := n.prev, writer := Detached(item))
  {
  }

  lemma Detaches(s: State, address: nat, k: nat)
    requires s.writer.Unlinked? && s.writer.item in s.nodes && k <= |s.chain| && Distinct(s.chain)
    requires (forall x :: x in s.chain ==> x in s.nodes && x != s.writer.item)
      && JustUnlinked(ViewOf(s), s.writer.item, k)
    ensures
      var s' := StepWriter(s, address);
      && s'.writer == Detached(s.writer.item) && s'.fault == s.fault && s'.casFailed == s.casFailed
      && s' == s.(nodes := s'.nodes, tail := s'.tail, writer := s'.writer, fault := s.fault)
      && s'.nodes.Keys == s.nodes.Keys && s'.nodes[s.writer.item] == s.nodes[s.writer.item]
      && (forall x :: x in s.nodes ==> s'.nodes[x].next == s.nodes[x].next)
      && s'.tail == LastOf(s.chain) && Prevs(s'.nodes, s.chain, -1)
      && (s.nodes[s.writer.item].next == None || s.nodes[s.writer.item].next.value in s.chain)
  {
    hide Prevs, TakeNode, LinkNode, SwapHead, Unlink, DetachNode, ChainFree, Store, Touch, At, Distinct, JustUnlinked;
    var c, item := s.chain, s.writer.item;
    JustUnlinkedParts(ViewOf(s), item, k);
    DetachStores(s, item);
    if k < |c| {
      assert c[k] in c;
      PrevsSet(s.nodes, c, k, k, s.nodes[item].prev);
    } else {
      PrevsNoHole(s.nodes, c);
    }
  }

  lemma JustUnlinkedParts(v: View, n: nat, k: nat)
    requires k <= |v.chain| && n in v.nodes && (forall x :: x in v.chain ==> x in v.nodes) && JustUnlinked(v, n, k)
    ensures v.nodes[n].next == (if k < |v.chain| then Some(v.chain[k]) else None)
    ensures v.nodes[n].prev == (if k == 0 then None else Some(v.chain[k - 1]))
    ensures v.tail == (if k == |v.chain| then Some(n) else LastOf(v.chain)) && Prevs(v.nodes, v.chain, k)
  {
  }

  lemma PrevsNoHole(nodes: map<nat, Node>, c: seq<nat>)
    requires (forall x :: x in c ==> x in nodes) && Prevs(nodes, c, |c|)
    ensures Prevs(nodes, c, -1)
  {
  }

  /** Without readers the node may be deleted; the reference count is read once, here. */
  lemma CheckStep(s: State, address: nat)
    requires Inv(s) && s.writer.Detached?
    ensures Inv(StepWriter(s, address)) && StepWriter(s, address).chain == s.chain
  {
    hide Sound, Holdable, StepWriter;
    var v := ViewOf(s);
    var v' := v.(writer := if s.refcount > 0 then Recycling(s.writer.item) else Deleting(s.writer.item));
    ChecksReaders(s, address);
    CheckedSound(v, v');
    if s.refcount > 0 {
      HoldableKept(v, v');
      InvKept(s, StepWriter(s, address), v');
    } else {
      assert |s.readers| == |s.readers.Keys| == 0;
    }
  }

  lemma ChecksReaders(s: State, address: nat)
    requires s.writer.Detached?
    ensures Becomes(s, StepWriter(s, address), ViewOf(s).(
      writer := if s.refcount > 0 then Recycling(s.writer.item) else Deleting(s.writer.item)))
  {
    hide TakeNode, LinkNode, SwapHead, Unlink, DetachNode, ChainFree;
  }

  lemma CheckedSound(v: View, v': View)
    requires Sound(v) && v.writer.Detached?
    requires v' == v.(writer := Recycling(v.writer.item)) || v' == v.(writer := Deleting(v.writer.item))
    ensures Sound(v')
  {
    hide Nexts, Prevs, Distinct;
  }

  lemma RecyclingStep(s: State, address: nat)
    requires Inv(s) && s.writer.Recycling?
    ensures Inv(StepWriter(s, address)) && StepWriter(s, address).chain == s.chain
  {
    hide Sound, Holdable, StepWriter;
    var v, n := ViewOf(s), s.writer.item;
    WriterFacts(v);
    var v' := v.(nodes := v.nodes[n := v.nodes[n].(prev := None, next := v.free)], writer := Chained(n));
    StoresFree(s, address);
    RecyclingSound(v, v');
    HoldableKept(v, v');
    InvKept(s, StepWriter(s, address), v');
  }

  lemma StoresFree(s: State, address: nat)
    requires s.writer.Recycling? && s.writer.item in s.nodes
    ensures
      var n := s.writer.item;
      Becomes(s, StepWriter(s, address), ViewOf(s).(
        nodes := s.nodes[n := s.nodes[n].(prev := None, next := s.free)], writer := Chained(n)))
  {
    hide TakeNode, LinkNode, SwapHead, Unlink, DetachNode, ChainFree;
  }

  lemma RecyclingSound(v: View, v': View)
    requires Sound(v) && v.writer.Recycling? && v.writer.item in v.nodes
    requires v' == v.(nodes := v'.nodes, writer := Chained(v.writer.item))
    requires v'.nodes == v.nodes[v.writer.item := v.nodes[v.writer.item].(prev := None, next := v.free)]
    ensures Sound(v')
  {
    hide Nexts, Prevs, Distinct, Apart, ForwardLinks;
    NodesAllocated(v);
    SoundApart(v);
    OnlyPrivateChanged(v, v', -1);
    NodesAllocated'(v');
  }

  lemma ChainFreeStep(s: State, address: nat)
    requires Inv(s) && s.writer.Chained?
    ensures Inv(StepWriter(s, address)) && StepWriter(s, address).chain == s.chain
  {
    hide Sound, Holdable, StepWriter;
    var v := ViewOf(s);
    WriterFacts(v);
    ChainsFree(s, address);
    ChainedSound(v);
    ChainedHoldable(v);
    InvKept(s, StepWriter(s, address), WithFreed(v));
  }

  function WithFreed(v: View): View
    requires v.writer.Chained? && (v.freed != [] ==> v.freed[0] in v.nodes)
  {
    var n := v.writer.item;
    v.(free := Some(n), writer := Idle, freed := [n] + v.freed,
       nodes := if v.freed == [] then v.nodes else v.nodes[v.freed[0] := v.nodes[v.freed[0]].(prev := Some(n))])
  }

  lemma ChainsFree(s: State, address: nat)
    requires s.writer.Chained? && s.free == First(s.freed) && (s.freed != [] ==> s.freed[0] in s.nodes)
    ensures Becomes(s, StepWriter(s, address), WithFreed(ViewOf(s)))
  {
    hide TakeNode, LinkNode, SwapHead, Unlink, DetachNode;
  }

  lemma ChainedHoldable(v: View)
    requires v.writer.Chained? && (v.freed != [] ==> v.freed[0] in v.nodes)
    ensures forall x :: Holdable(v, x) ==> Holdable(WithFreed(v), x)
  {
  }

  lemma ChainedSound(v: View)
    requires Sound(v) && v.writer.Chained? && (v.freed != [] ==> v.freed[0] in v.nodes)
    ensures Sound(WithFreed(v))
  {
    hide Nexts, Prevs, Distinct, Apart, ForwardLinks;
    NodesAllocated(v);
    SoundApart(v);
    Chains(v, v.writer.item, WithFreed(v));
    NodesAllocated'(WithFreed(v));
  }

  lemma Chains(v: View, n: nat, v': View)
    requires Apart(v) && ForwardLinks(v) && v.writer == Chained(n) && n in v.nodes && v.nodes[n].next == v.free
    requires v' == v.(free := Some(n), writer := Idle, freed := [n] + v.freed, nodes := v'.nodes)
    requires v'.nodes.Keys == v.nodes.Keys
    requires forall x :: x in v.nodes ==>
      v'.nodes[x].next == v.nodes[x].next && (x !in v.freed ==> v'.nodes[x] == v.nodes[x])
    ensures Apart(v') && ForwardLinks(v')
    ensures Prevs(v.nodes, v.chain, -1) ==> Prevs(v'.nodes, v'.chain, -1)
  {
    hide Nexts, Prevs, Distinct, Apart;
    ApartFacts(v);
    NextsCons(v.nodes, v.freed, n);
    NextsFrame(v.nodes, v'.nodes, v'.freed);
    NextsFrame(v.nodes, v'.nodes, v.chain);
    ApartChained(v, n, v');
    if Prevs(v.nodes, v.chain, -1) {
      PrevsFrame(v.nodes, v'.nodes, v.chain, -1);
    }
  }

  lemma ApartChained(v: View, n: nat, v': View)
    requires Apart(v) && v.writer == Chained(n) && v'.nodes.Keys == v.nodes.Keys
    requires v' == v.(free := Some(n), writer := Idle, freed := [n] + v.freed, nodes := v'.nodes)
    ensures Apart(v')
  {
    hide Distinct;
    DistinctSnoc(v.freed, n);
  }

  lemma DeleteStep(s: State, address: nat)
    requires Inv(s) && s.writer.Deleting?
    ensures Inv(StepWriter(s, address)) && StepWriter(s, address).chain == s.chain
  {
    hide Sound, Holdable, StepWriter;
    var v := ViewOf(s);
    var v' := v.(nodes := v.nodes - {s.writer.item}, writer := Idle);
    DeletesNode(s, address);
    DeletedSound(v, v');
    DeletedHoldable(v, v');
    InvKept(s, StepWriter(s, address), v');
  }

  lemma DeletesNode(s: State, address: nat)
    requires s.writer.Deleting?
    ensures Becomes(s, StepWriter(s, address), ViewOf(s).(nodes := s.nodes - {s.writer.item}, writer := Idle))
  {
    hide TakeNode, LinkNode, SwapHead, Unlink, DetachNode, ChainFree;
  }

  lemma DeletedHoldable(v: View, v': View)
    requires v.writer.Deleting? && v' == v.(nodes := v'.nodes, writer := Idle)
    ensures forall x :: Holdable(v, x) ==> Holdable(v', x)
  {
  }

  lemma DeletedSound(v: View, v': View)
    requires Sound(v) && v.writer.Deleting? && v' == v.(nodes := v.nodes - {v.writer.item}, writer := Idle)
    ensures Sound(v')
  {
    hide Nexts, Prevs, Distinct, Apart, ForwardLinks;
    NodesAllocated(v);
    SoundApart(v);
    Deletes(v, v.writer.item, v');
    NodesAllocated'(v');
  }

  lemma Deletes(v: View, n: nat, v': View)
    requires Apart(v) && ForwardLinks(v) && v.writer == Deleting(n)
    requires v' == v.(nodes := v.nodes - {n}, writer := Idle)
    ensures Apart(v') && ForwardLinks(v')
    ensures (forall x :: x in v.chain ==> x in v.nodes)
      && (Prevs(v.nodes, v.chain, -1) ==> Prevs(v'.nodes, v'.chain, -1))
  {
    hide Nexts, Prevs, Distinct;
    NextsFrame(v.nodes, v'.nodes, v.freed);
    NextsFrame(v.nodes, v'.nodes, v.chain);
    if Prevs(v.nodes, v.chain, -1) {
      PrevsFrame(v.nodes, v'.nodes, v.chain, -1);
    }
  }
}

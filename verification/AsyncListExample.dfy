/**
 * One list from its creation on, and a reader that stands on its first node when that is removed: the situations in
 * which a recycled node diverts a reader, leads it back, carries another value or takes the rest of the free list
 * with it.
 */
module AsyncListExample {
  import opened Common
  import opened AsyncList
  import opened AsyncListSafety
  import opened AsyncListSteps
  import opened AsyncListRuns
  import opened AsyncListReaders
  import opened AsyncListFind

  ghost predicate Leads(s: State, steps: seq<Step>, s': State) {
    Possible(s, steps) && Run(s, steps) == s'
  }

  lemma Nothing(s: State)
    ensures Leads(s, [], s)
  {
  }

  predicate Goes(s: State, step: Step, s': State) {
    Enabled(s, step) && Next(s, step) == s'
  }

  lemma Then(s: State, steps: seq<Step>, s1: State, step: Step, s2: State, more: seq<Step>)
    requires Leads(s, steps, s1) && Goes(s1, step, s2) && more == steps + [step]
    ensures Leads(s, more, s2)
  {
    hide Next, Enabled;
    RunNone(s2);
    RunFirst(s1, step, []);
    assert [step] + [] == [step];
    RunConcat(s, steps, [step]);
  }

  lemma Two(s0: State, a: Step, s1: State, b: Step, s2: State)
    requires Goes(s0, a, s1) && Goes(s1, b, s2)
    ensures Leads(s0, [a, b], s2)
  {
    hide Goes, Leads;
    Nothing(s0);
    Then(s0, [], s0, a, s1, [a]);
    Then(s0, [a], s1, b, s2, [a, b]);
  }

  lemma Five(s0: State, a: Step, s1: State, b: Step, s2: State, c: Step, s3: State, d: Step, s4: State, e: Step, s5: State)
    requires Goes(s0, a, s1) && Goes(s1, b, s2) && Goes(s2, c, s3) && Goes(s3, d, s4) && Goes(s4, e, s5)
    ensures Leads(s0, [a, b, c, d, e], s5)
  {
    hide Goes, Leads;
    Two(s0, a, s1, b, s2);
    Then(s0, [a, b], s2, c, s3, [a, b, c]);
    Then(s0, [a, b, c], s3, d, s4, [a, b, c, d]);
    Then(s0, [a, b, c, d], s4, e, s5, [a, b, c, d, e]);
  }

  lemma Joined(s: State, a: seq<Step>, s1: State, b: seq<Step>, s2: State)
    requires Leads(s, a, s1) && Leads(s1, b, s2)
    ensures Leads(s, a + b, s2)
  {
    hide Possible, Run;
    RunConcat(s, a, b);
  }

  /** A writer's step that allocates nothing. */
  const W: Step := WriterStep(30)

  function OneNode(): State {
    Initial().(nodes := map[10 := Node(1, None, None)], head := Some(10), tail := Some(10), chain := [10])
  }

  function TwoNodes(): State {
    Initial().(
      nodes := map[10 := Node(1, None, Some(20)), 20 := Node(2, Some(10), None)],
      head := Some(10),
      tail := Some(20),
      chain := [10, 20])
  }

  function Reading(): State {
    TwoNodes().(refcount := 1, readers := map[0 := Reader(true, Some(10), [10], {10, 20}, false)])
  }

  /** Node 10 is about to be recycled while the reader stands on it. */
  function Recycled(): State {
    Reading().(
      nodes := map[10 := Node(1, None, Some(20)), 20 := Node(2, None, None)],
      head := Some(20),
      writer := Recycling(10),
      readers := map[0 := Reader(true, Some(10), [10], {20}, true)],
      chain := [20])
  }

  /** Node 10 is the only free one. */
  function OneFree(): State {
    Recycled().(
      nodes := map[10 := Node(1, None, None), 20 := Node(2, None, None)],
      free := Some(10),
      writer := Idle,
      freed := [10])
  }

  /** Both nodes are free. */
  function TwoFree(): State {
    OneFree().(
      nodes := map[10 := Node(1, Some(20), None), 20 := Node(2, None, Some(10))],
      head := None,
      tail := None,
      free := Some(20),
      readers := map[0 := Reader(true, Some(10), [10], {}, true)],
      chain := [],
      freed := [20, 10])
  }

  /** Node 10 with value 1 is appended. */
  function AppendingOne(): seq<Step> {
    [LockInsert(false, 1), WriterStep(10)] + [W, W]
  }

  lemma AppendsOne()
    ensures Leads(Initial(), AppendingOne(), OneNode())
  {
    hide Leads, Unlink, DetachNode, ChainFree;
    var s0 := Initial();
    var s1 := s0.(writer := Inserting(false, 1));
    var s2 := s0.(nodes := map[10 := Node(1, None, None)], writer := Linking(false, 10));
    var s3 := s2.(tail := Some(10), writer := FirstTail(10));
    Two(s0, LockInsert(false, 1), s1, WriterStep(10), s2);
    Two(s2, W, s3, W, OneNode());
    Joined(s0, [LockInsert(false, 1), WriterStep(10)], s2, [W, W], OneNode());
  }

  /** The steps of appending to a list that is not empty. */
  lemma TakesNew(s: State, front: bool, value: int, node: nat, s': State)
    requires s.writer == Inserting(front, value) && s.free.None? && node !in s.nodes
    requires s'.nodes == s.nodes[node := Node(value, None, None)]
    requires s' == s.(nodes := s'.nodes, writer := Linking(front, node))
    ensures Goes(s, WriterStep(node), s')
  {
    hide LinkNode, SwapHead, Unlink, DetachNode, ChainFree;
  }

  lemma LinksBehind(s: State, node: nat, tail: nat, s': State)
    requires s.writer == Linking(false, node) && s.tail == Some(tail) && tail in s.nodes && s.nodes[tail].next.None?
    requires 30 !in s.nodes && s'.nodes == s.nodes[tail := s.nodes[tail].(next := Some(node))]
    requires s'.chain == s.chain + [node]
    requires s' == s.(nodes := s'.nodes, writer := BackLinked(node), chain := s'.chain)
    ensures Goes(s, W, s')
  {
    hide TakeNode, SwapHead, Unlink, DetachNode, ChainFree;
  }

  lemma PointsBack(s: State, node: nat, s': State)
    requires s.writer == BackLinked(node) && node in s.nodes && 30 !in s.nodes
    requires s'.nodes == s.nodes[node := s.nodes[node].(prev := s.tail)]
    requires s' == s.(nodes := s'.nodes, writer := BackPrev(node))
    ensures Goes(s, W, s')
  {
    hide TakeNode, LinkNode, SwapHead, Unlink, DetachNode, ChainFree;
  }

  lemma MovesTail(s: State, node: nat)
    requires s.writer == BackPrev(node) && 30 !in s.nodes
    ensures Goes(s, W, s.(tail := Some(node), writer := Idle))
  {
    hide TakeNode, LinkNode, SwapHead, Unlink, DetachNode, ChainFree;
  }

  lemma Locks(s: State, front: bool, value: int)
    requires s.writer.Idle?
    ensures Goes(s, LockInsert(front, value), s.(writer := Inserting(front, value)))
  {
    hide StepWriter;
  }

  /** Node 20 with value 2 is appended. */
  function AppendingTwo(): seq<Step> {
    [LockInsert(false, 2), WriterStep(20), W, W, W]
  }

  lemma AppendsTwo()
    ensures Leads(OneNode(), AppendingTwo(), TwoNodes())
  {
    hide Leads, Goes;
    var s0 := OneNode();
    var s1 := s0.(writer := Inserting(false, 2));
    var s2 := s0.(nodes := map[10 := Node(1, None, None), 20 := Node(2, None, None)], writer := Linking(false, 20));
    var s3 := s2.(
      nodes := map[10 := Node(1, None, Some(20)), 20 := Node(2, None, None)], writer := BackLinked(20), chain := [10, 20]);
    var s4 := s3.(nodes := TwoNodes().nodes, writer := BackPrev(20));
    Locks(s0, false, 2);
    TakesNew(s1, false, 2, 20, s2);
    LinksBehind(s2, 20, 10, s3);
    PointsBack(s3, 20, s4);
    MovesTail(s4, 20);
    Five(s0, LockInsert(false, 2), s1, WriterStep(20), s2, W, s3, W, s4, W, TwoNodes());
  }

  /** A reader starts at the head. */
  function Beginning(): seq<Step> {
    [Enter(0), Start(0)]
  }

  lemma Starts(s: State, s': State)
    requires s.readers == map[0 := Reader(false, None, [], {}, false)] && s.chain == [10, 20] && s.head == Some(10)
    requires s'.readers == map[0 := Reader(true, Some(10), [10], {10, 20}, false)] && s' == s.(readers := s'.readers)
    ensures Goes(s, Start(0), s')
  {
    hide StepWriter;
    var r := Next(s, Start(0)).readers[0];
    assert r.stay == {10, 20} && r.visited == [10];
    assert Next(s, Start(0)).readers == s'.readers;
  }

  lemma Begins()
    ensures Leads(TwoNodes(), Beginning(), Reading())
  {
    hide Leads, StepWriter;
    var s0 := TwoNodes();
    var s1 := s0.(refcount := 1, readers := map[0 := Reader(false, None, [], {}, false)]);
    Starts(s1, Reading());
    Two(s0, Enter(0), s1, Start(0), Reading());
  }

  /** The steps of a removal from the head. */
  lemma FindsHead(s: State, item: nat)
    requires s.writer.Idle? && s.head == Some(item) && 30 !in s.nodes
    ensures Goes(s, LockRemove(item), s.(writer := Searching(item, Some(item))))
    ensures Goes(s.(writer := Searching(item, Some(item))), W, s.(writer := Found(item)))
  {
    hide Unlink, DetachNode, ChainFree, TakeNode, LinkNode, SwapHead;
  }

  lemma UnlinksHead(s: State, item: nat, rest: seq<nat>, r: Reader, s': State, r': Reader)
    requires s.writer == Found(item) && s.head == Some(item) && item in s.nodes && 30 !in s.nodes
    requires s.chain == [item] + rest && item !in rest && s.readers == map[0 := r]
    requires r'.stay == r.stay - {item} && r' == r.(stay := r'.stay, lost := r.lost || r.cur == Some(item))
    requires s'.readers == map[0 := r']
    requires s' == s.(head := s.nodes[item].next, writer := Unlinked(item), chain := rest, readers := s'.readers)
    ensures Goes(s, W, s')
  {
    hide DetachNode, ChainFree, TakeNode, LinkNode, SwapHead;
    assert (map t | t in s.readers :: NoteUnlinked(s.readers[t], item)) == s'.readers;
    assert s.chain[1..] == rest;
    HeadIsOut(s.chain, item, rest);
  }

  lemma HeadIsOut(c: seq<nat>, item: nat, rest: seq<nat>)
    requires c == [item] + rest && item !in rest
    ensures Without(c, item) == rest
  {
    assert c[1..] == rest;
    WithoutAbsent(rest, item);
  }

  lemma DetachesHead(s: State, item: nat, s': State)
    requires s.writer == Unlinked(item) && item in s.nodes && 30 !in s.nodes
    requires
      var n := s.nodes[item];
      if n.next.Some? then
        && n.next.value in s.nodes && s'.nodes == s.nodes[n.next.value := s.nodes[n.next.value].(prev := n.prev)]
        && s' == s.(nodes := s'.nodes, writer := Detached(item))
      else s' == s.(tail := n.prev, writer := Detached(item))
    ensures Goes(s, W, s')
  {
    hide Unlink, ChainFree, TakeNode, LinkNode, SwapHead;
  }

  lemma ChoosesToRecycle(s: State, item: nat)
    requires s.writer == Detached(item) && s.refcount > 0 && 30 !in s.nodes
    ensures Goes(s, W, s.(writer := Recycling(item)))
  {
    hide Unlink, DetachNode, ChainFree, TakeNode, LinkNode, SwapHead;
  }

  lemma RecyclesNode(s: State, item: nat, s': State)
    requires s.writer == Recycling(item) && item in s.nodes && 30 !in s.nodes
    requires s'.nodes == s.nodes[item := s.nodes[item].(prev := None, next := s.free)]
    requires s' == s.(nodes := s'.nodes, writer := Chained(item))
    ensures Goes(s, W, s')
  {
    hide Unlink, DetachNode, ChainFree, TakeNode, LinkNode, SwapHead;
  }

  lemma ChainsNode(s: State, item: nat, s': State)
    requires s.writer == Chained(item) && 30 !in s.nodes
    requires
      if s.free.Some? then
        && s.free.value in s.nodes
        && s'.nodes == s.nodes[s.free.value := s.nodes[s.free.value].(prev := Some(item))]
      else s'.nodes == s.nodes
    requires s' == s.(nodes := s'.nodes, free := Some(item), writer := Idle, freed := s'.freed)
    requires s'.freed == [item] + s.freed
    ensures Goes(s, W, s')
  {
    hide Unlink, DetachNode, TakeNode, LinkNode, SwapHead;
  }

  /** Node 10 is removed, up to the choice to recycle it. */
  function RemovingFirst(): seq<Step> {
    [LockRemove(10), W, W, W, W]
  }

  lemma RemovesFirst()
    ensures Leads(Reading(), RemovingFirst(), Recycled())
  {
    hide Leads, Goes;
    var s0 := Reading();
    var s1 := s0.(writer := Searching(10, Some(10)));
    var s2 := s0.(writer := Found(10));
    var s3 := s0.(head := Some(20), writer := Unlinked(10), readers := Recycled().readers, chain := [20]);
    var s4 := s3.(nodes := Recycled().nodes, writer := Detached(10));
    FindsHead(s0, 10);
    UnlinksHead(s2, 10, [20], s0.readers[0], s3, s3.readers[0]);
    DetachesHead(s3, 10, s4);
    ChoosesToRecycle(s4, 10);
    Five(s0, LockRemove(10), s1, W, s2, W, s3, W, s4, W, Recycled());
  }

  /** The rest of that removal. */
  function Freeing(): seq<Step> {
    [W, W]
  }

  lemma Frees()
    ensures Leads(Recycled(), Freeing(), OneFree())
  {
    hide Leads, Goes;
    var s0 := Recycled();
    var s1 := s0.(nodes := OneFree().nodes, writer := Chained(10));
    RecyclesNode(s0, 10, s1);
    ChainsNode(s1, 10, OneFree());
    Two(s0, W, s1, W, OneFree());
  }

  /** Node 20 is removed and recycled as well. */
  function RemovingSecond(): seq<Step> {
    [LockRemove(20), W, W, W, W] + [W, W]
  }

  lemma RemovesSecond()
    ensures Leads(OneFree(), RemovingSecond(), TwoFree())
  {
    hide Leads, Goes;
    var s0 := OneFree();
    var s1 := s0.(writer := Searching(20, Some(20)));
    var s2 := s0.(writer := Found(20));
    var s3 := s0.(head := None, writer := Unlinked(20), readers := TwoFree().readers, chain := []);
    var s4 := s3.(tail := None, writer := Detached(20));
    var s5 := s4.(writer := Recycling(20));
    var s6 := s5.(nodes := map[10 := Node(1, None, None), 20 := Node(2, None, Some(10))], writer := Chained(20));
    FindsHead(s0, 20);
    UnlinksHead(s2, 20, [], s0.readers[0], s3, s3.readers[0]);
    DetachesHead(s3, 20, s4);
    ChoosesToRecycle(s4, 20);
    RecyclesNode(s5, 20, s6);
    ChainsNode(s6, 20, TwoFree());
    Five(s0, LockRemove(20), s1, W, s2, W, s3, W, s4, W, s5);
    Two(s5, W, s6, W, TwoFree());
    Joined(s0, [LockRemove(20), W, W, W, W], s5, [W, W], TwoFree());
  }

  /** Another value has been put into node 10, and the node in front of the list, under the reader. */
  function Reused(): State {
    OneFree().(
      nodes := map[10 := Node(7, None, Some(20)), 20 := Node(2, Some(10), None)],
      head := Some(10),
      free := None,
      chain := [10, 20],
      freed := [])
  }

  /** The node is free again, with that value. */
  function OtherRemoved(): State {
    OneFree().(nodes := map[10 := Node(7, None, None), 20 := Node(2, None, None)])
  }

  /** The steps of putting a recycled node in front of a list that is not empty. */
  lemma TakesFree(s: State, value: int, node: nat, s': State)
    requires s.writer == Inserting(true, value) && s.free == Some(node) && node in s.nodes && 30 !in s.nodes
    requires s.freed == [node] && s.leaked == {}
    requires s'.nodes == s.nodes[node := Node(value, None, None)]
    requires s' == s.(nodes := s'.nodes, free := None, writer := Linking(true, node), freed := [])
    ensures Goes(s, W, s')
  {
    hide LinkNode, SwapHead, Unlink, DetachNode, ChainFree;
    assert TakeNode(s, true, value, 30).leaked == {};
  }

  lemma LinksBefore(s: State, node: nat, s': State)
    requires s.writer == Linking(true, node) && s.tail.Some? && node in s.nodes && 30 !in s.nodes
    requires s'.nodes == s.nodes[node := s.nodes[node].(next := s.head, prev := None)]
    requires s' == s.(nodes := s'.nodes, writer := FrontNext(node))
    ensures Goes(s, W, s')
  {
    hide TakeNode, SwapHead, Unlink, DetachNode, ChainFree;
  }

  lemma HeadPointsBack(s: State, node: nat, head: nat, s': State)
    requires s.writer == FrontNext(node) && s.head == Some(head) && head in s.nodes && 30 !in s.nodes
    requires s'.nodes == s.nodes[head := s.nodes[head].(prev := Some(node))]
    requires s' == s.(nodes := s'.nodes, writer := FrontPrev(node))
    ensures Goes(s, W, s')
  {
    hide TakeNode, LinkNode, SwapHead, Unlink, DetachNode, ChainFree;
  }

  lemma MovesHead(s: State, node: nat, s': State)
    requires s.writer == FrontPrev(node) && node in s.nodes && s.nodes[node].next == s.head && 30 !in s.nodes
    requires s'.chain == [node] + s.chain && s' == s.(head := Some(node), writer := Idle, chain := s'.chain)
    ensures Goes(s, W, s')
  {
    hide TakeNode, LinkNode, Unlink, DetachNode, ChainFree;
  }

  function ReusingNode(): seq<Step> {
    [LockInsert(true, 7), W, W, W, W]
  }

  function Taken(): State {
    OneFree().(nodes := OtherRemoved().nodes, free := None, writer := Linking(true, 10), freed := [])
  }

  lemma TakesNode()
    ensures
      var s1 := OneFree().(writer := Inserting(true, 7));
      Goes(OneFree(), LockInsert(true, 7), s1) && Goes(s1, W, Taken())
  {
    hide Goes;
    Locks(OneFree(), true, 7);
    TakesFree(OneFree().(writer := Inserting(true, 7)), 7, 10, Taken());
  }

  lemma ReusesNode()
    ensures Leads(OneFree(), ReusingNode(), Reused())
  {
    hide Leads, Goes;
    var s1, s2 := OneFree().(writer := Inserting(true, 7)), Taken();
    var s3 := s2.(nodes := map[10 := Node(7, None, Some(20)), 20 := Node(2, None, None)], writer := FrontNext(10));
    var s4 := s3.(nodes := Reused().nodes, writer := FrontPrev(10));
    TakesNode();
    LinksBefore(s2, 10, s3);
    HeadPointsBack(s3, 10, 20, s4);
    MovesHead(s4, 10, Reused());
    Five(OneFree(), LockInsert(true, 7), s1, W, s2, W, s3, W, s4, W, Reused());
  }

  function RemovingReused(): seq<Step> {
    [LockRemove(10), W, W, W, W] + [W, W]
  }

  lemma RemovesReused()
    ensures Leads(Reused(), RemovingReused(), OtherRemoved())
  {
    hide Leads, Goes;
    var s0 := Reused();
    var s1 := s0.(writer := Searching(10, Some(10)));
    var s2 := s0.(writer := Found(10));
    var s3 := s0.(head := Some(20), writer := Unlinked(10), readers := Recycled().readers, chain := [20]);
    var s4 := s3.(nodes := map[10 := Node(7, None, Some(20)), 20 := Node(2, None, None)], writer := Detached(10));
    var s5 := s4.(writer := Recycling(10));
    var s6 := s5.(nodes := OtherRemoved().nodes, writer := Chained(10));
    FindsHead(s0, 10);
    UnlinksHead(s2, 10, [20], s0.readers[0], s3, s3.readers[0]);
    DetachesHead(s3, 10, s4);
    ChoosesToRecycle(s4, 10);
    RecyclesNode(s5, 10, s6);
    ChainsNode(s6, 10, OtherRemoved());
    Five(s0, LockRemove(10), s1, W, s2, W, s3, W, s4, W, s5);
    Two(s5, W, s6, W, OtherRemoved());
    Joined(s0, [LockRemove(10), W, W, W, W], s5, [W, W], OtherRemoved());
  }

  /** The runs from the empty list on. */
  function ToReading(): seq<Step> {
    AppendingOne() + AppendingTwo() + Beginning()
  }

  function ToRecycling(): seq<Step> {
    ToReading() + RemovingFirst()
  }

  function ToOneFree(): seq<Step> {
    ToRecycling() + Freeing()
  }

  function ToTwoFree(): seq<Step> {
    ToOneFree() + RemovingSecond()
  }

  lemma Reaches()
    ensures Leads(Initial(), ToReading(), Reading()) && Leads(Initial(), ToRecycling(), Recycled())
    ensures Leads(Initial(), ToOneFree(), OneFree()) && Leads(Initial(), ToTwoFree(), TwoFree())
  {
    hide Leads, AppendingOne, AppendingTwo, Beginning, RemovingFirst, Freeing, RemovingSecond, Initial, OneNode, TwoNodes,
      Reading, Recycled, OneFree, TwoFree;
    AppendsOne();
    AppendsTwo();
    Begins();
    RemovesFirst();
    Frees();
    RemovesSecond();
    Joined(Initial(), AppendingOne(), OneNode(), AppendingTwo(), TwoNodes());
    Joined(Initial(), AppendingOne() + AppendingTwo(), TwoNodes(), Beginning(), Reading());
    Joined(Initial(), ToReading(), Reading(), RemovingFirst(), Recycled());
    Joined(Initial(), ToRecycling(), Recycled(), Freeing(), OneFree());
    Joined(Initial(), ToOneFree(), OneFree(), RemovingSecond(), TwoFree());
  }

  lemma ReachedInv(steps: seq<Step>, s: State)
    requires Leads(Initial(), steps, s)
    ensures Inv(s)
  {
    hide Inv, Possible, Run;
    InitialInv();
    RunsKeepInv(Initial(), steps);
  }

  /**
   * The reader has read node 10 and is diverted when it is recycled: its next step ends the reading, although node 20
   * has been linked all the time and is still.
   */
  lemma ReaderIsDiverted() returns (s: State)
    ensures Leads(Initial(), ToRecycling(), Recycled()) && Inv(Recycled())
    ensures Recycled().writer == Recycling(10) && Recycled().readers[0].cur == Some(10)
    ensures Leads(Recycled(), Freeing(), OneFree()) && Goes(OneFree(), Advance(0), s)
    ensures s.chain == [20] && s.readers == map[0 := Reader(true, None, [10], {20}, true)]
  {
    hide Leads, Inv, ToRecycling, ToOneFree, ToTwoFree, StepWriter;
    Reaches();
    ReachedInv(ToRecycling(), Recycled());
    Frees();
    s := OneFree().(readers := map[0 := Reader(true, None, [10], {20}, true)]);
    assert Next(OneFree(), Advance(0)).readers[0].visited == [10];
    assert Next(OneFree(), Advance(0)).readers == s.readers;
  }

  /** Node 10 is taken again for another value, and leads the reader back into the list. */
  lemma ReaderIsLedBack()
    ensures Leads(Initial(), ToOneFree() + ReusingNode(), Reused()) && Inv(Reused())
    ensures OneFree().writer.Idle? && OneFree().freed == [10] && OneFree().chain == [20]
    ensures OneFree().readers[0].cur == Some(10)
    ensures Reused().readers[0].cur == Some(10) && At(Reused(), Some(10)).next == Some(20) && Reused().chain == [10, 20]
  {
    hide Leads, Inv, ToReading, ToRecycling, ToOneFree, ToTwoFree, ReusingNode;
    Reaches();
    ReusesNode();
    Joined(Initial(), ToOneFree(), OneFree(), ReusingNode(), Reused());
    ReachedInv(ToOneFree() + ReusingNode(), Reused());
  }

  /** A thread that has found value 1 in node 10 removes value 7 with it. */
  lemma OtherValueIsRemoved()
    ensures Leads(Initial(), ToReading(), Reading()) && Values(Reading().nodes, Reading().chain) == [1, 2]
    ensures Reading().readers[0].cur == Some(10) && ValueAt(Reading().nodes, 10) == 1
    ensures Leads(Reading(), RemovingFirst() + Freeing() + ReusingNode(), Reused())
    ensures Values(Reused().nodes, Reused().chain) == [7, 2] && Reused().readers[0].cur == Some(10)
    ensures Leads(Reused(), RemovingReused(), OtherRemoved()) && RemovingReused()[0] == LockRemove(10)
    ensures Values(OtherRemoved().nodes, OtherRemoved().chain) == [2]
  {
    hide Leads;
    Reaches();
    RemovesFirst();
    Frees();
    ReusesNode();
    RemovesReused();
    Joined(Reading(), RemovingFirst(), Recycled(), Freeing(), OneFree());
    Joined(Reading(), RemovingFirst() + Freeing(), OneFree(), ReusingNode(), Reused());
  }

  /** With two free nodes, prepending one value leaks the other node. */
  lemma FreeNodeLeaks(value: int) returns (s: State)
    ensures Leads(Initial(), ToTwoFree() + [LockInsert(true, value), W], s)
    ensures s.writer == Linking(true, 20) && s.free.None? && s.freed == [] && s.leaked == {10}
    ensures 10 !in s.chain && 10 !in s.freed && 10 in s.nodes
  {
    hide Leads, Inv, ToReading, ToRecycling, ToOneFree, ToTwoFree;
    Reaches();
    var s1 := TwoFree().(writer := Inserting(true, value));
    Locks(TwoFree(), true, value);
    s := Next(s1, W);
    assert Goes(s1, W, s);
    Two(TwoFree(), LockInsert(true, value), s1, W, s);
    Joined(Initial(), ToTwoFree(), TwoFree(), [LockInsert(true, value), W], s);
    assert s.leaked == {10};
  }
}

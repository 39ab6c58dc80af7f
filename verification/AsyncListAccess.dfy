/** What each step of an `async_list` dereferences and compares, and that this is always there. */
module AsyncListAccess {
  import opened Common
  import opened AsyncList
  import opened AsyncListSafety
  import opened AsyncListRuns

  /** The pointers that a step of the writer reads or stores through. */
  function WriterPointers(s: State): seq<Ptr> {
    match s.writer
    case Inserting(_, _) => if s.free == None then [] else [s.free]
    case Linking(front, node) => if s.tail == None then [] else if front then [Some(node)] else [s.tail]
    case FrontNext(_) => [s.head]
    case FrontPrev(node) => [Some(node)]
    case BackLinked(node) => [Some(node)]
    case Searching(item, at) => if at == None || at == Some(item) then [] else [at]
    case Found(item) =>
      if item !in s.nodes || s.head == Some(item) then [Some(item)] else [Some(item), s.nodes[item].prev]
    case Unlinked(item) =>
      if item !in s.nodes || s.nodes[item].next == None then [Some(item)] else [Some(item), s.nodes[item].next]
    case Recycling(item) => [Some(item)]
    case Chained(_) => if s.free == None then [] else [s.free]
    case _ => []
  }

  function Pointers(s: State, step: Step): seq<Ptr>
    requires Enabled(s, step)
  {
    match step
    case WriterStep(_) => WriterPointers(s)
    case Advance(tid) => [s.readers[tid].cur]
    case _ => []
  }

  predicate Present(s: State, p: Ptr) {
    p.Some? && p.value in s.nodes
  }

  predicate AllPresent(s: State, ps: seq<Ptr>) {
    (|ps| > 0 ==> Present(s, ps[0])) && (|ps| > 1 ==> Present(s, ps[1]))
  }

  /** The link that a compare-and-swap of the writer looks at holds the value that it expects. */
  predicate SwapFinds(s: State) {
    match s.writer
    case FirstTail(_) => s.head == None
    case Linking(front, _) =>
      !front && s.tail.Some? && s.tail.value in s.nodes ==> s.nodes[s.tail.value].next == None
    case FrontPrev(node) => node in s.nodes ==> s.head == s.nodes[node].next
    case Found(item) =>
      s.head == Some(item) ||
      (item in s.nodes ==>
         var p := s.nodes[item].prev;
         p.Some? && p.value in s.nodes && s.nodes[p.value].next == Some(item))
    case _ => true
  }

  /** A bad pointer is noticed at the step that goes through it, and a failing swap at its own. */
  lemma ErrorsShow(s: State, step: Step)
    requires Enabled(s, step)
    ensures Next(s, step).fault <==> s.fault || !AllPresent(s, Pointers(s, step))
    ensures AllPresent(s, Pointers(s, step)) ==>
              (Next(s, step).casFailed <==> s.casFailed || (step.WriterStep? && !SwapFinds(s)))
  {
    hide StepWriter, WriterPointers, SwapFinds;
    if step.WriterStep? {
      WriterErrorsShow(s, step.address);
    }
  }

  lemma WriterErrorsShow(s: State, address: nat)
    requires !s.writer.Idle?
    ensures StepWriter(s, address).fault <==> s.fault || !AllPresent(s, WriterPointers(s))
    ensures AllPresent(s, WriterPointers(s)) ==>
              (StepWriter(s, address).casFailed <==> s.casFailed || !SwapFinds(s))
  {
    hide TakeNode, LinkNode, Unlink, DetachNode, ChainFree, Store, Touch, At, SwapHead;
    match s.writer
    case Inserting(front, value) => TakeShows(s, front, value, address);
    case Linking(front, node) => LinkShows(s, front, node);
    case Found(item) => UnlinkShows(s, item);
    case Unlinked(item) => DetachShows(s, item);
    case Chained(item) => ChainShows(s, item);
    case FrontNext(_) => StoresShow(s, address);
    case BackLinked(_) => StoresShow(s, address);
    case Recycling(_) => StoresShow(s, address);
    case FirstTail(_) => SwapsShow(s, address);
    case FrontPrev(_) => SwapsShow(s, address);
    case _ => RestShows(s, address);
  }

  lemma RestShows(s: State, address: nat)
    requires s.writer.Searching? || s.writer.Detached? || s.writer.Deleting? || s.writer.BackPrev?
    ensures StepWriter(s, address).fault <==> s.fault || !AllPresent(s, WriterPointers(s))
    ensures AllPresent(s, WriterPointers(s)) ==>
              (StepWriter(s, address).casFailed <==> s.casFailed || !SwapFinds(s))
  {
    hide TakeNode, LinkNode, Unlink, DetachNode, ChainFree, SwapHead, Store;
  }

  lemma StoresShow(s: State, address: nat)
    requires s.writer.FrontNext? || s.writer.BackLinked? || s.writer.Recycling?
    ensures StepWriter(s, address).fault <==> s.fault || !AllPresent(s, WriterPointers(s))
    ensures AllPresent(s, WriterPointers(s)) ==>
              (StepWriter(s, address).casFailed <==> s.casFailed || !SwapFinds(s))
  {
    hide TakeNode, LinkNode, Unlink, DetachNode, ChainFree, SwapHead, Touch;
  }

  lemma SwapsShow(s: State, address: nat)
    requires s.writer.FirstTail? || s.writer.FrontPrev?
    ensures StepWriter(s, address).fault <==> s.fault || !AllPresent(s, WriterPointers(s))
    ensures AllPresent(s, WriterPointers(s)) ==>
              (StepWriter(s, address).casFailed <==> s.casFailed || !SwapFinds(s))
  {
    hide TakeNode, LinkNode, Unlink, DetachNode, ChainFree, Store;
  }

  lemma TakeShows(s: State, front: bool, value: int, address: nat)
    ensures
      var t := TakeNode(s, front, value, address);
      (t.fault <==> s.fault || (s.free.Some? && !Present(s, s.free))) && t.casFailed == s.casFailed
  {
  }

  lemma LinkShows(s: State, front: bool, node: nat)
    ensures
      var t, p := LinkNode(s, front, node), if front then Some(node) else s.tail;
      && (t.fault <==> s.fault || (s.tail.Some? && !Present(s, p)))
      && (t.casFailed <==> s.casFailed || (!front && Present(s, s.tail) && s.nodes[s.tail.value].next.Some?))
  {
  }

  lemma UnlinkShows(s: State, item: nat)
    ensures
      var t, first := Unlink(s, item), s.head == Some(item);
      && (item !in s.nodes ==> t.fault)
      && (item in s.nodes ==>
            var p := s.nodes[item].prev;
            && (t.fault <==> s.fault || (!first && !Present(s, p)))
            && (first || Present(s, p) ==>
                  (t.casFailed <==> s.casFailed || (!first && s.nodes[p.value].next != Some(item)))))
  {
    hide Without, NoteUnlinked;
  }

  lemma DetachShows(s: State, item: nat)
    ensures
      var t := DetachNode(s, item);
      && (item !in s.nodes ==> t.fault)
      && (item in s.nodes ==>
            var n := s.nodes[item].next;
            t.fault <==> s.fault || (n.Some? && !Present(s, n)))
      && t.casFailed == s.casFailed
  {
  }

  lemma ChainShows(s: State, item: nat)
    ensures
      var t := ChainFree(s, item);
      (t.fault <==> s.fault || (s.free.Some? && !Present(s, s.free))) && t.casFailed == s.casFailed
  {
  }

  /**
   * Whatever readers and writers have done before: every pointer that the next step goes through leads to an allocated
   * node, and its compare-and-swap finds what it expects.
   */
  lemma EveryStepIsSafe(steps: seq<Step>, step: Step)
    requires Possible(Initial(), steps) && Enabled(Run(Initial(), steps), step)
    ensures
      var s := Run(Initial(), steps);
      && (forall i :: 0 <= i < |Pointers(s, step)| ==> Present(s, Pointers(s, step)[i]))
      && (step.WriterStep? ==> SwapFinds(s))
  {
    hide Inv, Next, Possible, Run, Pointers, Present, SwapFinds, Enabled;
    InitialInv();
    RunsKeepInv(Initial(), steps);
    var s := Run(Initial(), steps);
    StepKeepsInv(s, step);
    NoFault(s);
    NoFault(Next(s, step));
    ErrorsShow(s, step);
    AtMostTwo(s, step);
  }

  lemma AtMostTwo(s: State, step: Step)
    requires Enabled(s, step)
    ensures |Pointers(s, step)| <= 2
  {
  }

  lemma NoFault(s: State)
    requires Inv(s)
    ensures !s.fault && !s.casFailed
  {
  }
}

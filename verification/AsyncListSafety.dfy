/** What every interleaving of readers and writers keeps. */
module AsyncListSafety {
  import opened Common
  import opened AsyncList

  /** The shared memory and the writer, without the readers. */
  datatype View = View(
    nodes: map<nat, Node>,
    head: Ptr,
    tail: Ptr,
    free: Ptr,
    writer: Writer,
    chain: seq<nat>,
    freed: seq<nat>,
    leaked: set<nat>)

  function ViewOf(s: State): View {
    View(s.nodes, s.head, s.tail, s.free, s.writer, s.chain, s.freed, s.leaked)
  }

  function First(c: seq<nat>): Ptr {
    if c == [] then None else Some(c[0])
  }

  function LastOf(c: seq<nat>): Ptr {
    if c == [] then None else Some(c[|c| - 1])
  }

  /** Following `_next` from the first node of `c` visits `c` and ends in null. */
  ghost predicate Nexts(nodes: map<nat, Node>, c: seq<nat>) {
    && (forall i :: 0 <= i < |c| ==> c[i] in nodes)
    && (forall i {:trigger nodes[c[i]]} :: 0 <= i < |c| - 1 ==> nodes[c[i]].next == Some(c[i + 1]))
    && (c != [] ==> nodes[c[|c| - 1]].next == None)
  }

  /** The `_prev` links of `c`, except for the nodes at position `hole`. */
  ghost predicate Prevs(nodes: map<nat, Node>, c: seq<nat>, hole: int)
    requires forall i :: 0 <= i < |c| ==> c[i] in nodes
  {
    forall i {:trigger nodes[c[i]]} :: 0 <= i < |c| && i != hole ==>
      nodes[c[i]].prev == if i == 0 then None else Some(c[i - 1])
  }

  /** The node that is neither linked nor free because the writer is working on it. */
  function Private(w: Writer): set<nat> {
    match w
    case Linking(_, n) => {n}
    case FirstTail(n) => {n}
    case FrontNext(n) => {n}
    case FrontPrev(n) => {n}
    case Unlinked(n) => {n}
    case Detached(n) => {n}
    case Recycling(n) => {n}
    case Chained(n) => {n}
    case Deleting(n) => {n}
    case _ => {}
  }

  /** Linked, free, leaked and private nodes are kept apart, and all of them are allocated. */
  ghost predicate Apart(s: View) {
    && Distinct(s.chain) && Distinct(s.freed)
    && (forall x :: x in s.chain ==> x in s.nodes && x !in s.freed && x !in s.leaked && x !in Private(s.writer))
    && (forall x :: x in s.freed ==> x in s.nodes && x !in s.leaked && x !in Private(s.writer))
    && (forall x :: x in s.leaked ==> x in s.nodes && x !in Private(s.writer))
    && (forall x :: x in Private(s.writer) ==> x in s.nodes)
  }

  /** The links that readers follow. They hold at every moment, also in the middle of a writer's work. */
  ghost predicate ForwardLinks(s: View) {
    && s.head == First(s.chain) && Nexts(s.nodes, s.chain)
    && s.free == First(s.freed) && Nexts(s.nodes, s.freed)
    && (forall x :: x in s.leaked && x in s.nodes ==> s.nodes[x].next == None || s.nodes[x].next.value in s.leaked)
  }

  /** The links that only writers use, as far as they have been set at the writer's current position. */
  ghost predicate BackwardLinks(s: View)
    requires forall i :: 0 <= i < |s.chain| ==> s.chain[i] in s.nodes
    requires forall x :: x in Private(s.writer) ==> x in s.nodes
  {
    var c := s.chain;
    match s.writer
    case FirstTail(n) => c == [] && s.tail == Some(n) && s.nodes[n].next == None && s.nodes[n].prev == None
    case FrontPrev(n) => c != [] && s.tail == LastOf(c) && Prevs(s.nodes, c, 0) && s.nodes[c[0]].prev == Some(n)
                         && s.nodes[n].next == s.head && s.nodes[n].prev == None
    case BackLinked(n) => |c| > 1 && c[|c| - 1] == n && s.tail == Some(c[|c| - 2]) && Prevs(s.nodes, c, |c| - 1)
    case BackPrev(n) => |c| > 1 && c[|c| - 1] == n && s.tail == Some(c[|c| - 2]) && Prevs(s.nodes, c, -1)
    case Unlinked(n) => exists k :: 0 <= k <= |c| && JustUnlinked(s, n, k)
    case _ => s.tail == LastOf(c) && Prevs(s.nodes, c, -1)
  }

  /** `n` has been taken out in front of position `k`, and its neighbours have not been told. */
  ghost predicate JustUnlinked(s: View, n: nat, k: nat)
    requires k <= |s.chain| && n in s.nodes && forall i :: 0 <= i < |s.chain| ==> s.chain[i] in s.nodes
  {
    var c := s.chain;
    && Prevs(s.nodes, c, k)
    && s.nodes[n].next == (if k < |c| then Some(c[k]) else None)
    && s.nodes[n].prev == (if k == 0 then None else Some(c[k - 1]))
    && s.tail == if k == |c| then Some(n) else LastOf(c)
  }

  /** The search for `item` has come to `at` without meeting it. */
  ghost predicate SearchesFrom(c: seq<nat>, item: nat, at: Ptr) {
    exists k :: 0 <= k <= |c| && at == First(c[k..]) && item !in c[..k]
  }

  /** What else the writer's position says. */
  ghost predicate WriterOk(s: View)
    requires forall x :: x in Private(s.writer) ==> x in s.nodes
  {
    match s.writer
    case Linking(_, n) => s.nodes[n].next == None && s.nodes[n].prev == None
    case FrontNext(n) => s.chain != [] && s.nodes[n].next == s.head && s.nodes[n].prev == None
    case Searching(item, at) => SearchesFrom(s.chain, item, at)
    case Found(item) => item in s.chain
    case Detached(n) => s.nodes[n].next == None || s.nodes[n].next.value in s.chain
    case Recycling(n) => s.nodes[n].next == None || s.nodes[n].next.value in s.chain
    case Chained(n) => s.nodes[n].next == s.free
    case _ => true
  }

  ghost predicate Sound(v: View) {
    Apart(v) && ForwardLinks(v) && BackwardLinks(v) && WriterOk(v)
  }

  /** A node a reader may stand on: it is not about to be deleted. */
  ghost predicate Holdable(v: View, x: nat) {
    (x in v.chain || x in v.freed || x in v.leaked || x in Private(v.writer)) && v.writer != Deleting(x)
  }

  ghost predicate ReadersOk(v: View, readers: map<nat, Reader>) {
    forall t :: t in readers && readers[t].cur.Some? ==> Holdable(v, readers[t].cur.value)
  }

  ghost predicate Inv(s: State) {
    !s.fault && !s.casFailed && Sound(ViewOf(s)) && ReadersOk(ViewOf(s), s.readers) && s.refcount == |s.readers|
  }

  lemma InitialInv()
    ensures Inv(Initial())
  {
  }

  function NextAt(c: seq<nat>, i: nat): Ptr
    requires i < |c|
  {
    if i + 1 < |c| then Some(c[i + 1]) else None
  }

  lemma LinkAt(nodes: map<nat, Node>, c: seq<nat>, i: nat)
    requires Nexts(nodes, c) && i < |c|
    ensures c[i] in nodes && nodes[c[i]].next == NextAt(c, i)
  {
  }

  /** Wherever a reader stands, the next link leads to null or to a node that is not going away. */
  lemma FollowedLink(v: View, x: nat)
    requires Sound(v) && Holdable(v, x)
    ensures x in v.nodes && (v.nodes[x].next.Some? ==> Holdable(v, v.nodes[x].next.value))
  {
    hide Nexts, Prevs, Distinct;
    if x in v.chain {
      var i :| 0 <= i < |v.chain| && v.chain[i] == x;
      LinkAt(v.nodes, v.chain, i);
    } else if x in v.freed {
      var i :| 0 <= i < |v.freed| && v.freed[i] == x;
      LinkAt(v.nodes, v.freed, i);
    }
  }

  lemma HeadHoldable(v: View)
    requires Sound(v)
    ensures v.head.Some? ==> Holdable(v, v.head.value)
  {
  }

  lemma ReaderStep(s: State, step: Step)
    requires Inv(s) && Enabled(s, step) && (step.Enter? || step.Start? || step.Advance? || step.Leave?)
    ensures Inv(Next(s, step))
  {
    hide Sound, Holdable, StepWriter;
    var v := ViewOf(s);
    HeadHoldable(v);
    match step
    case Advance(t) =>
      FollowedLink(v, s.readers[t].cur.value);
      assert ViewOf(Next(s, step)) == v;
      SameCount(s.readers, t, Next(s, step).readers[t]);
    case Leave(t) =>
      LeftCount(s.readers, t);
    case Enter(t) =>
      EnteredCount(s.readers, t, Next(s, step).readers[t]);
    case Start(t) =>
      SameCount(s.readers, t, Next(s, step).readers[t]);
    case _ =>
  }

  lemma SameCount(readers: map<nat, Reader>, t: nat, r: Reader)
    requires t in readers
    ensures |readers[t := r]| == |readers|
  {
    assert |readers[t := r].Keys| == |readers[t := r]|;
    assert readers[t := r].Keys == readers.Keys;
  }

  lemma EnteredCount(readers: map<nat, Reader>, t: nat, r: Reader)
    requires t !in readers
    ensures |readers[t := r]| == |readers| + 1
  {
  }

  lemma LeftCount(readers: map<nat, Reader>, t: nat)
    requires t in readers
    ensures |readers - {t}| == |readers| - 1
  {
    assert (readers - {t}).Keys == readers.Keys - {t};
    assert |readers - {t}| == |(readers - {t}).Keys| && |readers| == |readers.Keys|;
  }

  lemma LockStep(s: State, step: Step)
    requires Inv(s) && Enabled(s, step) && (step.LockInsert? || step.LockRemove?)
    ensures Inv(Next(s, step))
  {
    hide Sound, Holdable, StepWriter;
    var v := ViewOf(s);
    var v' := v.(writer := if step.LockInsert? then Inserting(step.front, step.value) else Searching(step.item, v.head));
    LockedSound(v, v');
    HoldableKept(v, v');
    InvKept(s, Next(s, step), v');
  }

  lemma LockedSound(v: View, v': View)
    requires Sound(v) && v.writer.Idle? && v' == v.(writer := v'.writer)
    requires v'.writer.Inserting? || (v'.writer.Searching? && v'.writer.at == v.head)
    ensures Sound(v')
  {
    hide Nexts, Prevs, Distinct;
    if v'.writer.Searching? {
      assert v.chain[0..] == v.chain && v.chain[..0] == [];
      assert SearchesFrom(v.chain, v'.writer.item, v.head);
    }
  }

  lemma NextsFrame(nodes: map<nat, Node>, nodes': map<nat, Node>, c: seq<nat>)
    requires Nexts(nodes, c)
    requires forall x :: x in c ==> x in nodes' && nodes'[x].next == nodes[x].next
    ensures Nexts(nodes', c)
  {
  }

  lemma PrevsFrame(nodes: map<nat, Node>, nodes': map<nat, Node>, c: seq<nat>, hole: int)
    requires (forall x :: x in c ==> x in nodes && x in nodes') && Prevs(nodes, c, hole)
    requires forall i :: 0 <= i < |c| && i != hole ==> nodes'[c[i]].prev == nodes[c[i]].prev
    ensures Prevs(nodes', c, hole)
  {
  }

  /** A step that keeps the readers where they are, and their nodes alive, keeps them safe. */
  lemma ReadersKept(s: State, s': State)
    requires Inv(s) && !s'.fault && !s'.casFailed && Sound(ViewOf(s'))
    requires s'.refcount == s.refcount && s'.readers.Keys == s.readers.Keys
    requires forall t :: t in s.readers ==> s'.readers[t].cur == s.readers[t].cur
    requires forall x :: Holdable(ViewOf(s), x) ==> Holdable(ViewOf(s'), x)
    ensures Inv(s')
  {
    hide Sound, Holdable;
    assert |s.readers| == |s.readers.Keys| && |s'.readers| == |s'.readers.Keys|;
  }

  /** The step shows in `v'` only, and breaks nothing. */
  predicate Becomes(s: State, s': State, v': View) {
    ViewOf(s') == v' && s'.fault == s.fault && s'.casFailed == s.casFailed && s'.refcount == s.refcount
      && s'.readers == s.readers
  }

  lemma InvKept(s: State, s': State, v': View)
    requires Inv(s) && Becomes(s, s', v') && Sound(v') && forall x :: Holdable(ViewOf(s), x) ==> Holdable(v', x)
    ensures Inv(s')
  {
    hide Sound, Holdable;
  }

  /** What a reader may stand on stays when the lists stay and the writer keeps its node. */
  lemma HoldableKept(v: View, v': View)
    requires v'.chain == v.chain && v'.freed == v.freed && v'.leaked == v.leaked
    requires Private(v.writer) <= Private(v'.writer) && !v'.writer.Deleting?
    ensures forall x :: Holdable(v, x) ==> Holdable(v', x)
  {
  }

  /** What the writer's position says about its node and the ends of the list. */
  lemma WriterFacts(v: View)
    requires Sound(v)
    ensures forall n :: n in Private(v.writer) ==> n in v.nodes
    ensures v.writer.FirstTail? ==> v.head == None && v.nodes[v.writer.node].next == None && v.chain == []
    ensures v.writer.FrontPrev? ==> v.nodes[v.writer.node].next == v.head
    ensures v.writer.FrontNext? ==> v.chain != [] && v.chain[0] in v.nodes && v.head == Some(v.chain[0])
    ensures v.writer.BackLinked? ==>
      |v.chain| > 1 && v.chain[|v.chain| - 1] == v.writer.node && v.writer.node in v.nodes
    ensures v.writer.Linking? ==> v.tail == LastOf(v.chain)
    ensures v.writer.Linking? && v.chain != [] ==>
      v.chain[|v.chain| - 1] in v.nodes && v.nodes[v.chain[|v.chain| - 1]].next == None
    ensures v.free == First(v.freed) && (v.freed != [] ==> v.freed[0] in v.nodes)
  {
    hide Prevs, Distinct;
  }

  /** A step that writes to the private node only leaves the public links alone. */
  lemma OnlyPrivateChanged(v: View, v': View, hole: int)
    requires Apart(v) && ForwardLinks(v) && Private(v'.writer) == Private(v.writer)
    requires v'.head == v.head && v'.free == v.free && v'.chain == v.chain && v'.freed == v.freed
      && v'.leaked == v.leaked
    requires v'.nodes.Keys == v.nodes.Keys && forall x :: x in v.nodes && x !in Private(v.writer) ==>
      v'.nodes[x] == v.nodes[x]
    ensures Apart(v') && ForwardLinks(v')
    ensures Prevs(v.nodes, v.chain, hole) ==> Prevs(v'.nodes, v'.chain, hole)
  {
    hide Nexts, Prevs, Distinct;
    NextsFrame(v.nodes, v'.nodes, v.chain);
    NextsFrame(v.nodes, v'.nodes, v.freed);
    if Prevs(v.nodes, v.chain, hole) {
      PrevsFrame(v.nodes, v'.nodes, v.chain, hole);
    }
  }

  /** A step that leaves all `next` links alone leaves the public structure alone. */
  lemma NextsUntouched(v: View, v': View)
    requires Apart(v) && ForwardLinks(v) && Private(v'.writer) == Private(v.writer)
    requires v'.head == v.head && v'.free == v.free && v'.chain == v.chain && v'.freed == v.freed
      && v'.leaked == v.leaked
    requires v'.nodes.Keys == v.nodes.Keys && forall x :: x in v.nodes ==> v'.nodes[x].next == v.nodes[x].next
    ensures Apart(v') && ForwardLinks(v')
  {
    hide Nexts, Prevs, Distinct;
    NextsFrame(v.nodes, v'.nodes, v.chain);
    NextsFrame(v.nodes, v'.nodes, v.freed);
  }

  lemma SoundApart(v: View)
    requires Sound(v)
    ensures Apart(v) && ForwardLinks(v) && Distinct(v.chain)
  {
  }

  /** The rest of the free list is closed under its links, so it can be leaked as a whole. */
  lemma LeakedClosed(v: View, nodes': map<nat, Node>, leaked': set<nat>)
    requires Nexts(v.nodes, v.freed) && v.freed != [] && ForwardLinks(v) && Apart(v)
    requires leaked' == v.leaked + (set x | x in v.freed && x != v.freed[0])
    requires forall x :: x in leaked' ==> x in nodes' && nodes'[x].next == v.nodes[x].next
    ensures forall x :: x in leaked' ==> nodes'[x].next == None || nodes'[x].next.value in leaked'
  {
    forall x | x in leaked' ensures nodes'[x].next == None || nodes'[x].next.value in leaked' {
      if x in v.freed {
        var i :| 0 <= i < |v.freed| && v.freed[i] == x;
        assert v.nodes[v.freed[i]].next.Some? ==> v.freed[i + 1] in v.freed && v.freed[i + 1] != v.freed[0];
      }
    }
  }
}

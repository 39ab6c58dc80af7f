/**
 * `async_list`, step by step: writers hold a lock and change the links one visible store at a time, readers take no
 * lock and only count themselves in `_refcount`. Node addresses are natural numbers; `delete` takes an address out of
 * `nodes`, and an allocation may hand it out again.
 *
 * `chain`, `freed`, `leaked` and the readers' `visited`, `stay` and `lost` are history: no step looks at them.
 */
module AsyncList {
  import opened Common

  type Ptr = Option<nat>

  datatype Node = Node(value: int, prev: Ptr, next: Ptr)

  /** Where the writer that holds the lock stands. */
  datatype Writer =
    | Idle
    | Inserting(front: bool, value: int)
    | Linking(front: bool, node: nat)
    | FirstTail(node: nat)
    | FrontNext(node: nat)
    | FrontPrev(node: nat)
    | BackLinked(node: nat)
    | BackPrev(node: nat)
    | Searching(item: nat, at: Ptr)
    | Found(item: nat)
    | Unlinked(item: nat)
    | Detached(item: nat)
    | Recycling(item: nat)
    | Chained(item: nat)
    | Deleting(item: nat)

  /**
   * A reader between set_reading(true) and set_reading(false). `stay` are the nodes that have been linked ever since it
   * started at the head; `lost` says that its current node has been unlinked under it.
   */
  datatype Reader = Reader(started: bool, cur: Ptr, visited: seq<nat>, stay: set<nat>, lost: bool)

  datatype State = State(
    nodes: map<nat, Node>,
    head: Ptr,
    tail: Ptr,
    free: Ptr,
    refcount: int,
    writer: Writer,
    readers: map<nat, Reader>,
    /** A null or deallocated node has been dereferenced. */
    fault: bool,
    /** A compare-and-swap has not found the value it expected. */
    casFailed: bool,
    chain: seq<nat>,
    freed: seq<nat>,
    leaked: set<nat>)

  function Initial(): State {
    State(map[], None, None, None, 0, Idle, map[], false, false, [], [], {})
  }

  datatype Step =
    | LockInsert(front: bool, value: int)
    | LockRemove(item: nat)
    | WriterStep(address: nat)
    | Enter(tid: nat)
    | Start(tid: nat)
    | Advance(tid: nat)
    | Leave(tid: nat)

  predicate Enabled(s: State, step: Step) {
    match step
    case LockInsert(_, _) => s.writer.Idle?
    case LockRemove(_) => s.writer.Idle?
    case WriterStep(address) => !s.writer.Idle? && address !in s.nodes
    case Enter(tid) => tid !in s.readers
    case Start(tid) => tid in s.readers
    case Advance(tid) => tid in s.readers && s.readers[tid].cur.Some?
    case Leave(tid) => tid in s.readers
  }

  /** Reading a node through a pointer. */
  predicate Dangling(s: State, p: Ptr) {
    p.None? || p.value !in s.nodes
  }

  function At(s: State, p: Ptr): Node {
    if Dangling(s, p) then Node(0, None, None) else s.nodes[p.value]
  }

  /** Storing through a pointer. */
  function Store(s: State, p: Ptr, n: Node): State {
    if Dangling(s, p) then s.(fault := true) else s.(nodes := s.nodes[p.value := n])
  }

  function Touch(s: State, p: Ptr): State {
    if Dangling(s, p) then s.(fault := true) else s
  }

  /** The node for a new value: the first free one, reset before `_free` is moved on to its successor, or a new one. */
  function TakeNode(s: State, front: bool, value: int, address: nat): State {
    var n := Node(value, None, None);
    if s.free.Some? then
      var s1 := Store(s, s.free, n);
      s1.(free := At(s1, s.free).next, writer := Linking(front, s.free.value),
          freed := [], leaked := s.leaked + (set x | x in s.freed && Some(x) != s.free))
    else
      s.(nodes := s.nodes[address := n], writer := Linking(front, address))
  }

  function LinkNode(s: State, front: bool, node: nat): State {
    if s.tail.None? then
      s.(tail := Some(node), writer := FirstTail(node))
    else if front then
      Store(s, Some(node), At(s, Some(node)).(next := s.head, prev := None)).(writer := FrontNext(node))
    else if At(s, s.tail).next == None then
      Store(s, s.tail, At(s, s.tail).(next := Some(node))).(writer := BackLinked(node), chain := s.chain + [node])
    else
      s.(casFailed := true, writer := BackLinked(node))
  }

  /** Compare-and-swap of the list head, which adds `node` to the front. */
  function SwapHead(s: State, expected: Ptr, node: nat): State {
    if s.head == expected then s.(head := Some(node), writer := Idle, chain := [node] + s.chain)
    else s.(casFailed := true, writer := Idle)
  }

  function Without(c: seq<nat>, x: nat): seq<nat> {
    if c == [] then [] else if c[0] == x then Without(c[1..], x) else [c[0]] + Without(c[1..], x)
  }

  /** What unlinking a node means for the history of a reader. */
  function NoteUnlinked(r: Reader, item: nat): Reader {
    r.(stay := r.stay - {item}, lost := r.lost || r.cur == Some(item))
  }

  /** Compare-and-swap of the one link that leads to `item`. */
  function Unlink(s: State, item: nat): State {
    var next := At(s, Some(item)).next;
    var s0 := Touch(s, Some(item));
    var s1 :=
      if s.head == Some(item) then s0.(head := next)
      else
        var p := At(s, Some(item)).prev;
        if At(s, p).next == Some(item) then Store(s0, p, At(s, p).(next := next))
        else Touch(s0, p).(casFailed := true);
    s1.(writer := Unlinked(item), chain := Without(s.chain, item),
        readers := map t | t in s.readers :: NoteUnlinked(s.readers[t], item))
  }

  function DetachNode(s: State, item: nat): State {
    var n, s0 := At(s, Some(item)), Touch(s, Some(item));
    var s1 := if n.next.Some? then Store(s0, n.next, At(s, n.next).(prev := n.prev)) else s0.(tail := n.prev);
    s1.(writer := Detached(item))
  }

  function ChainFree(s: State, item: nat): State {
    var s1 := if s.free.Some? then Store(s, s.free, At(s, s.free).(prev := Some(item))) else s;
    s1.(free := Some(item), writer := Idle, freed := [item] + s.freed)
  }

  function StepWriter(s: State, address: nat): State {
    match s.writer
    case Idle => s
    case Inserting(front, value) => TakeNode(s, front, value, address)
    case Linking(front, node) => LinkNode(s, front, node)
    case FirstTail(node) => SwapHead(s, None, node)
    case FrontNext(node) => Store(s, s.head, At(s, s.head).(prev := Some(node))).(writer := FrontPrev(node))
    case FrontPrev(node) => SwapHead(Touch(s, Some(node)), At(s, Some(node)).next, node)
    case BackLinked(node) => Store(s, Some(node), At(s, Some(node)).(prev := s.tail)).(writer := BackPrev(node))
    case BackPrev(node) => s.(tail := Some(node), writer := Idle)
    case Searching(item, at) =>
      if at.None? then s.(writer := Idle)
      else if at.value == item then s.(writer := Found(item))
      else Touch(s, at).(writer := Searching(item, At(s, at).next))
    case Found(item) => Unlink(s, item)
    case Unlinked(item) => DetachNode(s, item)
    case Detached(item) => s.(writer := if s.refcount > 0 then Recycling(item) else Deleting(item))
    case Recycling(item) => Store(s, Some(item), At(s, Some(item)).(prev := None, next := s.free)).(writer := Chained(item))
    case Chained(item) => ChainFree(s, item)
    case Deleting(item) => s.(nodes := s.nodes - {item}, writer := Idle)
  }

  function Reached(r: Reader, p: Ptr): Reader {
    r.(cur := p, visited := r.visited + (if p.Some? then [p.value] else []))
  }

  function Next(s: State, step: Step): State
    requires Enabled(s, step)
  {
    match step
    case LockInsert(front, value) => s.(writer := Inserting(front, value))
    case LockRemove(item) => s.(writer := Searching(item, s.head))
    case WriterStep(address) => StepWriter(s, address)
    case Enter(tid) => s.(refcount := s.refcount + 1, readers := s.readers[tid := Reader(false, None, [], {}, false)])
    case Start(tid) =>
      s.(readers := s.readers[tid := Reached(Reader(true, None, [], set x | x in s.chain, false), s.head)])
    case Advance(tid) =>
      var r := s.readers[tid];
      Touch(s, r.cur).(readers := s.readers[tid := Reached(r, At(s, r.cur).next)])
    case Leave(tid) => s.(refcount := s.refcount - 1, readers := s.readers - {tid})
  }
}

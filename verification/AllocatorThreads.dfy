/** `alloc` in any number of threads: every read of `next_addr` and every compare-and-swap is a step of its own. */
module AllocatorThreads {
  import opened Common
  import opened Allocator

  /** Where a thread stands, with the values of `next_addr` it has read so far. */
  datatype Thread =
    | Checking(size: nat)
    | Fetching(size: nat, checked: nat)
    | Computing(size: nat, checked: nat, oldValue: nat)
    | Swapping(size: nat, checked: nat, oldValue: nat, newValue: nat)

  datatype Block = Block(start: nat, size: nat)

  /**
   * `blocks` are those handed out so far. `raced` and `wrapped` are history: a swap has succeeded although the space
   * check had seen another address; a swapped address has gone over 64 bits.
   */
  datatype State = State(next: nat, threads: map<nat, Thread>, blocks: seq<Block>, raced: bool, wrapped: bool)

  datatype Step = Call(tid: nat, size: nat) | Run(tid: nat)

  predicate Enabled(s: State, step: Step) {
    match step
    case Call(tid, size) => tid !in s.threads && size < TWO_TO_64
    case Run(tid) => tid in s.threads
  }

  function Bumped(next: nat, size: nat): nat {
    RoundUp(next + size) % TWO_TO_64
  }

  function Next(pool: Pool, s: State, step: Step): State
    requires Enabled(s, step)
  {
    match step
    case Call(tid, size) => s.(threads := s.threads[tid := Checking(size)])
    case Run(tid) =>
      match s.threads[tid]
      case Checking(size) =>
        if HasSpace(pool, s.next, size) then s.(threads := s.threads[tid := Fetching(size, s.next)])
        else s.(threads := s.threads - {tid})
      case Fetching(size, checked) => s.(threads := s.threads[tid := Computing(size, checked, s.next)])
      case Computing(size, checked, oldValue) =>
        s.(threads := s.threads[tid := Swapping(size, checked, oldValue, Bumped(s.next, size))])
      case Swapping(size, checked, oldValue, newValue) =>
        if s.next == oldValue then
          State(newValue, s.threads - {tid}, s.blocks + [Block(oldValue, size)], s.raced || checked != oldValue,
                s.wrapped || RoundUp(oldValue + size) >= TWO_TO_64)
        else s.(threads := s.threads[tid := Checking(size)])
  }

  function Initial(pool: Pool): State {
    State(RoundUp(pool.usablePage + HEADER_SIZE), map[], [], false, false)
  }

  predicate Possible(pool: Pool, s: State, steps: seq<Step>)
    decreases steps
  {
    steps != [] ==> Enabled(s, steps[0]) && Possible(pool, Next(pool, s, steps[0]), steps[1..])
  }

  function RunAll(pool: Pool, s: State, steps: seq<Step>): State
    requires Possible(pool, s, steps)
    decreases steps
  {
    if steps == [] then s else RunAll(pool, Next(pool, s, steps[0]), steps[1..])
  }

  /** Aligned, above the allocator's own structure, and in front of all later blocks. */
  ghost predicate BlocksApart(pool: Pool, s: State) {
    && (forall i :: 0 <= i < |s.blocks| ==>
          && s.blocks[i].start % ALIGNMENT == 0
          && pool.usablePage + HEADER_SIZE <= s.blocks[i].start
          && s.blocks[i].start + s.blocks[i].size <= s.next)
    && (forall i, j :: 0 <= i < j < |s.blocks| ==> s.blocks[i].start + s.blocks[i].size <= s.blocks[j].start)
  }

  predicate ThreadOk(next: nat, t: Thread) {
    t.size < TWO_TO_64
    && match t
       case Checking(_) => true
       case Fetching(_, checked) => checked <= next
       case Computing(_, checked, oldValue) => checked <= oldValue <= next
       case Swapping(size, checked, oldValue, newValue) =>
         checked <= oldValue <= next && (oldValue == next ==> newValue == Bumped(oldValue, size))
  }

  ghost predicate Inv(pool: Pool, s: State) {
    !s.wrapped ==>
      && s.next % ALIGNMENT == 0 && pool.usablePage + HEADER_SIZE <= s.next < TWO_TO_64
      && BlocksApart(pool, s)
      && (forall t :: t in s.threads ==> ThreadOk(s.next, s.threads[t]))
  }

  lemma SwapKeepsInv(pool: Pool, s: State, tid: nat)
    requires pool.Valid() && Inv(pool, s) && tid in s.threads && s.threads[tid].Swapping?
    ensures Inv(pool, Next(pool, s, Run(tid)))
  {
    hide RoundUp;
    var s' := Next(pool, s, Run(tid));
    if !s'.wrapped && s.next == s.threads[tid].oldValue {
      assert s'.next == RoundUp(s.next + s.threads[tid].size);
      forall t | t in s'.threads ensures ThreadOk(s'.next, s'.threads[t]) {
        ThreadLater(s.next, s'.next, s.threads[t]);
      }
    }
  }

  /** A thread stays as it is when `next_addr` grows: it has seen the old value at most. */
  lemma ThreadLater(next: nat, next': nat, t: Thread)
    requires ThreadOk(next, t) && next <= next'
    ensures ThreadOk(next', t)
  {
    if t.Swapping? && t.oldValue == next' {
      assert next == next';
    }
  }

  lemma StepKeepsInv(pool: Pool, s: State, step: Step)
    requires pool.Valid() && Inv(pool, s) && Enabled(s, step)
    ensures Inv(pool, Next(pool, s, step))
  {
    hide RoundUp, BlocksApart;
    if step.Run? && s.threads[step.tid].Swapping? {
      SwapKeepsInv(pool, s, step.tid);
    } else {
      BlocksUnchanged(pool, s, Next(pool, s, step));
    }
  }

  lemma BlocksUnchanged(pool: Pool, s: State, s': State)
    requires s'.blocks == s.blocks && s'.next == s.next
    ensures BlocksApart(pool, s) ==> BlocksApart(pool, s')
  {
  }

  lemma {:induction false} RunKeepsInv(pool: Pool, s: State, steps: seq<Step>)
    requires pool.Valid() && Inv(pool, s) && Possible(pool, s, steps)
    ensures Inv(pool, RunAll(pool, s, steps))
    decreases steps
  {
    hide Inv, Next, Enabled;
    if steps != [] {
      StepKeepsInv(pool, s, steps[0]);
      RunKeepsInv(pool, Next(pool, s, steps[0]), steps[1..]);
    }
  }

  /** The address behind the block, rounded up, has more than 64 bits. */
  predicate Wraps(b: Block) {
    RoundUp(b.start + b.size) >= TWO_TO_64
  }

  ghost predicate WrappedByBlock(s: State) {
    s.wrapped <==> exists b :: b in s.blocks && Wraps(b)
  }

  lemma {:induction false} RunKeepsWrapped(pool: Pool, s: State, steps: seq<Step>)
    requires WrappedByBlock(s) && Possible(pool, s, steps)
    ensures WrappedByBlock(RunAll(pool, s, steps))
    decreases steps
  {
    hide Next, Enabled, WrappedByBlock;
    if steps != [] {
      StepKeepsWrapped(pool, s, steps[0]);
      RunKeepsWrapped(pool, Next(pool, s, steps[0]), steps[1..]);
    }
  }

  lemma StepKeepsWrapped(pool: Pool, s: State, step: Step)
    requires WrappedByBlock(s) && Enabled(s, step)
    ensures WrappedByBlock(Next(pool, s, step))
  {
    hide RoundUp;
    if step.Run? && s.threads[step.tid].Swapping? && s.next == s.threads[step.tid].oldValue {
      var b := Block(s.next, s.threads[step.tid].size);
      var s' := Next(pool, s, step);
      assert s'.blocks == s.blocks + [b];
      assert s'.wrapped == (s.wrapped || Wraps(b));
      forall c ensures c in s'.blocks <==> c in s.blocks || c == b {
      }
    }
  }

  /**
   * Whatever the interleaving: as long as no block handed out leads over 64 bits, the blocks are aligned, above the
   * allocator's structure and pairwise disjoint.
   */
  lemma BlocksDisjoint(pool: Pool, steps: seq<Step>)
    requires pool.Valid() && Possible(pool, Initial(pool), steps)
    ensures
      var blocks := RunAll(pool, Initial(pool), steps).blocks;
      (forall b :: b in blocks ==> !Wraps(b)) ==>
        && (forall i :: 0 <= i < |blocks| ==>
              blocks[i].start % ALIGNMENT == 0 && blocks[i].start >= pool.usablePage + HEADER_SIZE)
        && (forall i, j :: 0 <= i < j < |blocks| ==> blocks[i].start + blocks[i].size <= blocks[j].start)
  {
    hide RunAll, Possible, Wraps;
    RunKeepsInv(pool, Initial(pool), steps);
    RunKeepsWrapped(pool, Initial(pool), steps);
  }

  /** No swap has succeeded with a space check that saw another address. */
  ghost predicate Unraced(pool: Pool, s: State) {
    !s.raced ==>
      && !s.wrapped && s.next <= pool.End()
      && (forall i :: 0 <= i < |s.blocks| ==> s.blocks[i].start + s.blocks[i].size <= pool.End())
      && (forall t :: t in s.threads && !s.threads[t].Checking? ==>
            s.threads[t].checked <= pool.End() && HasSpace(pool, s.threads[t].checked, s.threads[t].size))
  }

  lemma StepKeepsUnraced(pool: Pool, s: State, step: Step)
    requires pool.Valid() && Inv(pool, s) && Unraced(pool, s) && Enabled(s, step)
    ensures Unraced(pool, Next(pool, s, step))
  {
    hide RoundUp, HasSpace, BlocksApart;
    if step.Run? && s.threads[step.tid].Swapping? && !s.raced {
      var t := s.threads[step.tid];
      if s.next == t.oldValue && t.checked == t.oldValue {
        SpaceInside(pool, s.next, t.size);
        RoundsInside(pool, s.next + t.size);
      }
    }
  }

  lemma {:induction false} RunKeepsUnraced(pool: Pool, s: State, steps: seq<Step>)
    requires pool.Valid() && Inv(pool, s) && Unraced(pool, s) && Possible(pool, s, steps)
    ensures Unraced(pool, RunAll(pool, s, steps))
    decreases steps
  {
    hide Inv, Unraced, Next, Enabled;
    if steps != [] {
      StepKeepsInv(pool, s, steps[0]);
      StepKeepsUnraced(pool, s, steps[0]);
      RunKeepsUnraced(pool, Next(pool, s, steps[0]), steps[1..]);
    }
  }

  /** If every successful swap had its space check see the swapped address, all blocks end inside the usable pages. */
  lemma UnracedBlocksInside(pool: Pool, steps: seq<Step>)
    requires pool.Valid() && Possible(pool, Initial(pool), steps)
    ensures
      var s := RunAll(pool, Initial(pool), steps);
      !s.raced ==>
        && (forall i :: 0 <= i < |s.blocks| ==> s.blocks[i].start + s.blocks[i].size <= pool.End())
        && (forall i, j :: 0 <= i < j < |s.blocks| ==> s.blocks[i].start + s.blocks[i].size <= s.blocks[j].start)
  {
    hide RunAll, Possible;
    RoundsInside(pool, pool.usablePage + HEADER_SIZE);
    RunKeepsInv(pool, Initial(pool), steps);
    RunKeepsUnraced(pool, Initial(pool), steps);
  }

  /** Past the end the unsigned difference has gone below zero, and the check lets almost any size through. */
  lemma CheckAfterOverrun(pool: Pool, next: nat, size: nat)
    requires pool.Valid() && pool.End() < next < TWO_TO_64
    ensures HasSpace(pool, next, size) <==> next + size <= pool.End() + TWO_TO_64
  {
  }

  lemma {:induction false} RunConcat(pool: Pool, s: State, a: seq<Step>, b: seq<Step>)
    requires Possible(pool, s, a) && Possible(pool, RunAll(pool, s, a), b)
    ensures Possible(pool, s, a + b) && RunAll(pool, s, a + b) == RunAll(pool, RunAll(pool, s, a), b)
    decreases a
  {
    hide Next, Enabled;
    if a == [] {
      assert a + b == b;
    } else {
      assert (a + b)[1..] == a[1..] + b;
      RunConcat(pool, Next(pool, s, a[0]), a[1..], b);
    }
  }

  /** The state after a thread has swapped without interference. */
  function Swapped(s: State, tid: nat, size: nat, checked: nat): State {
    State(Bumped(s.next, size), s.threads - {tid}, s.blocks + [Block(s.next, size)], s.raced || checked != s.next,
          s.wrapped || RoundUp(s.next + size) >= TWO_TO_64)
  }

  lemma FinishAlloc(pool: Pool, s: State, tid: nat, size: nat, checked: nat)
    requires tid in s.threads && s.threads[tid] == Fetching(size, checked)
    ensures Possible(pool, s, [Run(tid), Run(tid), Run(tid)])
    ensures RunAll(pool, s, [Run(tid), Run(tid), Run(tid)]) == Swapped(s, tid, size, checked)
  {
    hide RoundUp, RunAll, Possible;
    var s1 := Next(pool, s, Run(tid));
    var s2 := Next(pool, s1, Run(tid));
    RunOne(pool, s, Run(tid));
    RunOne(pool, s1, Run(tid));
    RunOne(pool, s2, Run(tid));
    RunConcat(pool, s, [Run(tid)], [Run(tid)]);
    RunConcat(pool, s, [Run(tid)] + [Run(tid)], [Run(tid)]);
    assert [Run(tid)] + [Run(tid)] + [Run(tid)] == [Run(tid), Run(tid), Run(tid)];
    assert s2.threads - {tid} == s.threads - {tid};
  }

  lemma RunOne(pool: Pool, s: State, step: Step)
    requires Enabled(s, step)
    ensures Possible(pool, s, [step]) && RunAll(pool, s, [step]) == Next(pool, s, step)
  {
    hide Next, Enabled;
    assert [step][1..] == [];
    assert RunAll(pool, Next(pool, s, step), []) == Next(pool, s, step);
  }

  lemma AllocAlone(pool: Pool, s: State, tid: nat, size: nat)
    requires tid !in s.threads && size < TWO_TO_64 && HasSpace(pool, s.next, size)
    ensures Possible(pool, s, [Call(tid, size), Run(tid)] + [Run(tid), Run(tid), Run(tid)])
    ensures RunAll(pool, s, [Call(tid, size), Run(tid)] + [Run(tid), Run(tid), Run(tid)])
      == Swapped(s, tid, size, s.next)
  {
    hide RoundUp, HasSpace, RunAll, Possible;
    var s1 := Next(pool, s, Call(tid, size));
    var s2 := Next(pool, s1, Run(tid));
    RunOne(pool, s, Call(tid, size));
    RunOne(pool, s1, Run(tid));
    RunConcat(pool, s, [Call(tid, size)], [Run(tid)]);
    assert [Call(tid, size)] + [Run(tid)] == [Call(tid, size), Run(tid)];
    FinishAlloc(pool, s2, tid, size, s.next);
    RunConcat(pool, s, [Call(tid, size), Run(tid)], [Run(tid), Run(tid), Run(tid)]);
    assert s2.threads - {tid} == s.threads - {tid};
  }

  const SMALL_POOL := Pool(0x1000, 0x1000, 0x1000, 0x1000, 0x1000)

  function BothChecked(): State {
    State(0x1030, map[0 := Fetching(4000, 0x1030), 1 := Fetching(4000, 0x1030)], [], false, false)
  }

  function Overrun(): State {
    State(0x2F70, map[], [Block(0x1030, 4000), Block(0x1FD0, 4000)], true, false)
  }

  lemma BothCheck()
    ensures Possible(SMALL_POOL, Initial(SMALL_POOL), [Call(0, 4000), Call(1, 4000), Run(0), Run(1)])
    ensures RunAll(SMALL_POOL, Initial(SMALL_POOL), [Call(0, 4000), Call(1, 4000), Run(0), Run(1)]) == BothChecked()
  {
  }

  lemma BothSwap() returns (steps: seq<Step>)
    ensures Possible(SMALL_POOL, BothChecked(), steps) && RunAll(SMALL_POOL, BothChecked(), steps) == Overrun()
  {
    hide RunAll, Possible;
    FinishAlloc(SMALL_POOL, BothChecked(), 0, 4000, 0x1030);
    var s := Swapped(BothChecked(), 0, 4000, 0x1030);
    assert s == State(0x1FD0, map[1 := Fetching(4000, 0x1030)], [Block(0x1030, 4000)], false, false);
    FinishAlloc(SMALL_POOL, s, 1, 4000, 0x1030);
    assert Swapped(s, 1, 4000, 0x1030) == Overrun();
    steps := [Run(0), Run(0), Run(0)] + [Run(1), Run(1), Run(1)];
    RunConcat(SMALL_POOL, BothChecked(), [Run(0), Run(0), Run(0)], [Run(1), Run(1), Run(1)]);
  }

  /** Two threads that check before either of them swaps can both succeed where there is room for one. */
  lemma ChecksCanOverrun() returns (steps: seq<Step>)
    ensures SMALL_POOL.Valid() && Possible(SMALL_POOL, Initial(SMALL_POOL), steps)
    ensures RunAll(SMALL_POOL, Initial(SMALL_POOL), steps).blocks == [Block(0x1030, 4000), Block(0x1FD0, 4000)]
    ensures RunAll(SMALL_POOL, Initial(SMALL_POOL), steps) == Overrun() && 0x1FD0 + 4000 > SMALL_POOL.End()
  {
    hide Possible, RunAll, Initial, BothChecked;
    BothCheck();
    var b := BothSwap();
    RunConcat(SMALL_POOL, Initial(SMALL_POOL), [Call(0, 4000), Call(1, 4000), Run(0), Run(1)], b);
    steps := [Call(0, 4000), Call(1, 4000), Run(0), Run(1)] + b;
  }

  /** A size that the check lets through past the end, and that brings `next_addr` back to the start of the pool. */
  const WRAPPING_SIZE: nat := TWO_TO_64 - 0x2F70 + 0x1030

  /** So blocks are not always disjoint: after such an overrun the first block's memory can be handed out again. */
  lemma BlocksCanOverlap() returns (steps: seq<Step>)
    ensures SMALL_POOL.Valid() && Possible(SMALL_POOL, Initial(SMALL_POOL), steps)
    ensures
      var blocks := RunAll(SMALL_POOL, Initial(SMALL_POOL), steps).blocks;
      |blocks| == 4 && blocks[0] == Block(0x1030, 4000) && blocks[3] == Block(0x1030, 16)
  {
    hide Possible, RunAll, Initial;
    steps := ChecksCanOverrun();
    var s := Overrun();
    var c := [Call(0, WRAPPING_SIZE), Run(0)] + [Run(0), Run(0), Run(0)];
    var d := [Call(0, 16), Run(0)] + [Run(0), Run(0), Run(0)];
    CheckAfterOverrun(SMALL_POOL, s.next, WRAPPING_SIZE);
    AllocAlone(SMALL_POOL, s, 0, WRAPPING_SIZE);
    assert RoundUp(s.next + WRAPPING_SIZE) == TWO_TO_64 + 0x1030;
    var s' := Swapped(s, 0, WRAPPING_SIZE, s.next);
    assert s'.next == 0x1030;
    SpaceInside(SMALL_POOL, 0x1030, 16);
    AllocAlone(SMALL_POOL, s', 0, 16);
    RunConcat(SMALL_POOL, Initial(SMALL_POOL), steps, c);
    RunConcat(SMALL_POOL, Initial(SMALL_POOL), steps + c, d);
    steps := steps + c + d;
  }
}

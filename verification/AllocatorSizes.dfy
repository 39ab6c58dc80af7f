/**
 * What the sizes of the calls alone say about the blocks: for which sizes all interleavings of the threads keep all
 * blocks apart and inside the usable pages.
 */
module AllocatorSizes {
  import opened Common
  import opened Allocator
  import opened AllocatorThreads

  /** What the calls of the threads in `d` take, each rounded up to the alignment. */
  function Total(sizes: seq<nat>, n: nat, d: set<nat>): nat
    requires n <= |sizes|
  {
    if n == 0 then 0 else Total(sizes, n - 1, d) + (if n - 1 in d then RoundUp(sizes[n - 1]) else 0)
  }

  function Ids(n: nat): (d: set<nat>)
    ensures forall t: nat :: t in d <==> t < n
  {
    if n == 0 then {} else Ids(n - 1) + {n - 1}
  }

  /** What all calls together take. */
  function Sum(sizes: seq<nat>): nat {
    Total(sizes, |sizes|, Ids(|sizes|))
  }

  lemma {:induction false} TotalGrows(sizes: seq<nat>, n: nat, d: set<nat>, e: set<nat>)
    requires n <= |sizes| && d <= e
    ensures Total(sizes, n, d) <= Total(sizes, n, e)
  {
    hide RoundUp;
    if n > 0 {
      TotalGrows(sizes, n - 1, d, e);
    }
  }

  lemma {:induction false} TotalWith(sizes: seq<nat>, n: nat, d: set<nat>, t: nat)
    requires n <= |sizes| && t !in d && t < |sizes|
    ensures Total(sizes, n, d + {t}) == Total(sizes, n, d) + if t < n then RoundUp(sizes[t]) else 0
  {
    hide RoundUp;
    if n > 0 {
      TotalWith(sizes, n - 1, d, t);
    }
  }

  /** Thread i calls `alloc` for `sizes[i]` once at most. */
  ghost predicate CallsOnce(steps: seq<Step>, sizes: seq<nat>) {
    && (forall i :: 0 <= i < |steps| && steps[i].Call? ==> steps[i].tid < |sizes| && steps[i].size == sizes[steps[i].tid])
    && (forall i, j :: 0 <= i < j < |steps| && steps[i].Call? && steps[j].Call? ==> steps[i].tid != steps[j].tid)
  }

  /** The calls to come are made by threads outside of `d`. */
  ghost predicate CallsOutside(steps: seq<Step>, d: set<nat>) {
    forall i :: 0 <= i < |steps| && steps[i].Call? ==> steps[i].tid !in d
  }

  /** The calls that would have room if they were the only ones. */
  function Fitting(pool: Pool, next: nat, sizes: seq<nat>, n: nat): (f: set<nat>)
    requires n <= |sizes|
    ensures forall i: nat :: i in f <==> i < n && next + sizes[i] <= pool.End()
  {
    if n == 0 then {}
    else Fitting(pool, next, sizes, n - 1) + if next + sizes[n - 1] <= pool.End() then {n - 1} else {}
  }

  /** What those take together. */
  function FittingSum(pool: Pool, next: nat, sizes: seq<nat>): nat {
    Total(sizes, |sizes|, Fitting(pool, next, sizes, |sizes|))
  }

  /**
   * The calls of the threads in `f` lead to no address of more than 64 bits, and other calls are refused: there are
   * none, or those in `f` stay in the pages and the others never have room.
   */
  ghost predicate Room(pool: Pool, start: nat, sizes: seq<nat>, f: set<nat>) {
    && f <= Ids(|sizes|) && start + Total(sizes, |sizes|, f) < TWO_TO_64
    && (f == Ids(|sizes|)
        || (start + Total(sizes, |sizes|, f) <= pool.End() && Fitting(pool, start, sizes, |sizes|) <= f))
  }

  /**
   * The threads in `d` have got their blocks, and nobody else has taken anything since `next_addr` was `start`. Only
   * threads in `f` have passed the check.
   */
  ghost predicate Tracked(pool: Pool, start: nat, sizes: seq<nat>, s: State, d: set<nat>, f: set<nat>) {
    && Inv(pool, s) && !s.wrapped && d !! s.threads.Keys && d <= f && s.threads.Keys <= Ids(|sizes|)
    && (forall t :: t in s.threads ==> s.threads[t].size == sizes[t] && (!s.threads[t].Checking? ==> t in f))
    && s.next == start + Total(sizes, |sizes|, d)
  }

  lemma OnlyFittingPass(pool: Pool, start: nat, sizes: seq<nat>, s: State, tid: nat, d: set<nat>, f: set<nat>)
    requires pool.Valid() && Room(pool, start, sizes, f) && Tracked(pool, start, sizes, s, d, f)
    requires tid in s.threads && HasSpace(pool, s.next, sizes[tid])
    ensures tid in f
  {
    hide RoundUp, Total, Inv, HasSpace;
    if f != Ids(|sizes|) {
      TotalGrows(sizes, |sizes|, d, f);
      InvNext(pool, s);
      SpaceInside(pool, s.next, sizes[tid]);
    }
  }

  predicate Aligned(x: nat) {
    x % ALIGNMENT == 0
  }

  lemma RoundUpFrom(next: nat, size: nat)
    requires Aligned(next)
    ensures RoundUp(next + size) == next + RoundUp(size)
  {
  }

  /** What one more thread takes stays within the sum. */
  lemma Within(sizes: seq<nat>, d: set<nat>, f: set<nat>, t: nat)
    requires d <= f <= Ids(|sizes|) && t !in d && t in f
    ensures Total(sizes, |sizes|, d + {t}) == Total(sizes, |sizes|, d) + RoundUp(sizes[t]) <= Total(sizes, |sizes|, f)
  {
    hide RoundUp, Total;
    TotalWith(sizes, |sizes|, d, t);
    TotalGrows(sizes, |sizes|, d + {t}, f);
  }

  lemma SwapTracked(pool: Pool, start: nat, sizes: seq<nat>, s: State, tid: nat, d: set<nat>, f: set<nat>)
    requires pool.Valid() && Room(pool, start, sizes, f) && Tracked(pool, start, sizes, s, d, f)
    requires tid in s.threads && s.threads[tid].Swapping? && s.next == s.threads[tid].oldValue
    ensures Tracked(pool, start, sizes, Next(pool, s, Run(tid)), d + {tid}, f)
  {
    hide RoundUp, Total, BlocksApart;
    StepKeepsInv(pool, s, Run(tid));
    RoundUpFrom(s.next, sizes[tid]);
    Within(sizes, d, f, tid);
    ThreadOfSwap(pool, s, tid);
  }

  lemma ThreadOfSwap(pool: Pool, s: State, tid: nat)
    requires Inv(pool, s) && !s.wrapped && tid in s.threads && s.threads[tid].Swapping?
      && s.next == s.threads[tid].oldValue
    ensures Aligned(s.next) && s.threads[tid].newValue == RoundUp(s.next + s.threads[tid].size) % TWO_TO_64
  {
    hide RoundUp, BlocksApart;
  }

  lemma StepTracked(pool: Pool, start: nat, sizes: seq<nat>, s: State, step: Step, d: set<nat>, f: set<nat>)
    returns (d': set<nat>)
    requires pool.Valid() && Room(pool, start, sizes, f) && Tracked(pool, start, sizes, s, d, f) && Enabled(s, step)
    requires step.Call? ==> step.tid !in d && step.tid < |sizes| && step.size == sizes[step.tid]
    ensures Tracked(pool, start, sizes, Next(pool, s, step), d', f)
    ensures d' <= d + s.threads.Keys
    ensures Next(pool, s, step).threads.Keys <= s.threads.Keys + (if step.Call? then {step.tid} else {})
  {
    hide RoundUp, Total, BlocksApart, Inv, HasSpace, Room;
    d' := d;
    StepKeepsInv(pool, s, step);
    if step.Run? && s.threads[step.tid].Swapping? && s.next == s.threads[step.tid].oldValue {
      SwapTracked(pool, start, sizes, s, step.tid, d, f);
      d' := d + {step.tid};
    } else if step.Run? && HasSpace(pool, s.next, sizes[step.tid]) {
      OnlyFittingPass(pool, start, sizes, s, step.tid, d, f);
    }
  }

  lemma {:induction false} RunTracked(pool: Pool, start: nat, sizes: seq<nat>, s: State, steps: seq<Step>, d: set<nat>,
                                      f: set<nat>)
    returns (d': set<nat>)
    requires pool.Valid() && Room(pool, start, sizes, f) && Tracked(pool, start, sizes, s, d, f)
      && Possible(pool, s, steps)
    requires CallsOnce(steps, sizes) && CallsOutside(steps, d + s.threads.Keys)
    ensures Tracked(pool, start, sizes, RunAll(pool, s, steps), d', f)
    decreases steps
  {
    hide Tracked, Next, Enabled, Room;
    d' := d;
    if steps != [] {
      d' := StepTracked(pool, start, sizes, s, steps[0], d, f);
      d' := RunTracked(pool, start, sizes, Next(pool, s, steps[0]), steps[1..], d', f);
    }
  }

  /** No thread is inside, and all is well so far. */
  ghost predicate Quiet(pool: Pool, s: State) {
    && Inv(pool, s) && !s.wrapped && s.threads == map[] && s.next <= pool.End()
  }

  lemma InitialQuiet(pool: Pool)
    requires pool.Valid()
    ensures Quiet(pool, Initial(pool))
  {
    RoundsInside(pool, pool.usablePage + HEADER_SIZE);
  }

  /** All blocks are aligned, above the header, pairwise disjoint and inside of the usable pages. */
  ghost predicate BlocksGood(pool: Pool, s: State) {
    && (forall i :: 0 <= i < |s.blocks| ==>
          && s.blocks[i].start % ALIGNMENT == 0 && s.blocks[i].start >= pool.usablePage + HEADER_SIZE
          && s.blocks[i].start + s.blocks[i].size <= pool.End())
    && (forall i, j :: 0 <= i < j < |s.blocks| ==> s.blocks[i].start + s.blocks[i].size <= s.blocks[j].start)
  }

  /** Whatever the interleaving and the space checks: sizes that do not lead over 64 bits keep all blocks apart. */
  lemma SizesKeepBlocksApart(pool: Pool, s: State, sizes: seq<nat>, steps: seq<Step>)
    requires pool.Valid() && Quiet(pool, s) && s.next + Sum(sizes) < TWO_TO_64
    requires Possible(pool, s, steps) && CallsOnce(steps, sizes)
    ensures
      var s' := RunAll(pool, s, steps);
      !s'.wrapped && BlocksApart(pool, s') && s'.next <= s.next + Sum(sizes)
  {
    hide RunAll, Possible, Sum, Total, BlocksApart, CallsOnce, Quiet;
    SumIsTotal(sizes);
    RoomKeepsBlocksApart(pool, s, sizes, steps, Ids(|sizes|));
  }

  lemma RoomKeepsBlocksApart(pool: Pool, s: State, sizes: seq<nat>, steps: seq<Step>, f: set<nat>)
    requires pool.Valid() && Quiet(pool, s) && Room(pool, s.next, sizes, f)
    requires Possible(pool, s, steps) && CallsOnce(steps, sizes)
    ensures
      var s' := RunAll(pool, s, steps);
      !s'.wrapped && BlocksApart(pool, s') && s'.next <= s.next + Total(sizes, |sizes|, f)
  {
    hide RoundUp, Total, Sum, RunAll, Possible, BlocksApart;
    NothingTaken(sizes, |sizes|);
    var d := RunTracked(pool, s.next, sizes, s, steps, {}, f);
    TotalGrows(sizes, |sizes|, d, f);
  }

  lemma SumIsTotal(sizes: seq<nat>)
    ensures Sum(sizes) == Total(sizes, |sizes|, Ids(|sizes|))
  {
  }

  lemma {:induction false} NothingTaken(sizes: seq<nat>, n: nat)
    requires n <= |sizes|
    ensures Total(sizes, n, {}) == 0
  {
    if n > 0 {
      NothingTaken(sizes, n - 1);
    }
  }

  /** The first of the threads in `f`, with the check behind them. */
  function CheckedThreads(sizes: seq<nat>, n: nat, next: nat, f: set<nat>): (t: map<nat, Thread>)
    requires n <= |sizes|
    ensures forall i: nat :: i in t <==> i < n && i in f
    ensures forall i: nat :: i < n && i in f ==> t[i] == Fetching(sizes[i], next)
  {
    if n == 0 then map[]
    else
      var before := CheckedThreads(sizes, n - 1, next, f);
      if n - 1 in f then before[n - 1 := Fetching(sizes[n - 1], next)] else before
  }

  ghost predicate AllFit(pool: Pool, next: nat, sizes: seq<nat>, f: set<nat>) {
    forall i :: i in f ==> i < |sizes| && next + sizes[i] <= pool.End()
  }

  /** Of the first `n` threads, all in `f` have checked for space, and none of them has taken any. */
  lemma {:induction false} AllCheck(pool: Pool, s: State, sizes: seq<nat>, n: nat, f: set<nat>) returns (steps: seq<Step>)
    requires pool.Valid() && Quiet(pool, s) && AllFit(pool, s.next, sizes, f) && n <= |sizes|
    ensures Possible(pool, s, steps) && CallsOnce(steps, sizes)
    ensures forall i :: 0 <= i < |steps| && steps[i].Call? ==> steps[i].tid < n
    ensures RunAll(pool, s, steps) == s.(threads := CheckedThreads(sizes, n, s.next, f))
  {
    hide RunAll, Possible, Quiet, CallsOnce, HasSpace, Pool.Valid, AllFit, CheckedThreads;
    if n == 0 {
      NoneCalls(sizes);
      steps := [];
      NoneChecked(pool, s, sizes, f);
      RunNothing(pool, s);
    } else {
      steps := AllCheck(pool, s, sizes, n - 1, f);
      if n - 1 in f {
        OneMoreChecks(pool, s, sizes, n, f);
        RunConcat(pool, s, steps, [Call(n - 1, sizes[n - 1]), Run(n - 1)]);
        CallAppended(steps, n - 1, sizes);
        steps := steps + [Call(n - 1, sizes[n - 1]), Run(n - 1)];
      } else {
        NoneMoreChecks(sizes, n, s.next, f);
      }
    }
  }

  lemma NoneChecked(pool: Pool, s: State, sizes: seq<nat>, f: set<nat>)
    requires Quiet(pool, s)
    ensures s.(threads := CheckedThreads(sizes, 0, s.next, f)) == s
  {
  }

  lemma NoneMoreChecks(sizes: seq<nat>, n: nat, next: nat, f: set<nat>)
    requires 0 < n <= |sizes| && n - 1 !in f
    ensures CheckedThreads(sizes, n, next, f) == CheckedThreads(sizes, n - 1, next, f)
  {
  }

  lemma OneMoreChecks(pool: Pool, s: State, sizes: seq<nat>, n: nat, f: set<nat>)
    requires pool.Valid() && Quiet(pool, s) && AllFit(pool, s.next, sizes, f) && 0 < n <= |sizes| && n - 1 in f
    ensures
      var c, steps := s.(threads := CheckedThreads(sizes, n - 1, s.next, f)), [Call(n - 1, sizes[n - 1]), Run(n - 1)];
      Possible(pool, c, steps) && RunAll(pool, c, steps) == s.(threads := CheckedThreads(sizes, n, s.next, f))
  {
    hide RunAll, Possible, Inv, HasSpace;
    InvNext(pool, s);
    OneChecks(pool, s.(threads := CheckedThreads(sizes, n - 1, s.next, f)), n - 1, sizes[n - 1]);
  }

  lemma NoneCalls(sizes: seq<nat>)
    ensures CallsOnce([], sizes)
  {
  }

  lemma CallAppended(a: seq<Step>, tid: nat, sizes: seq<nat>)
    requires CallsOnce(a, sizes) && tid < |sizes|
    requires forall i :: 0 <= i < |a| && a[i].Call? ==> a[i].tid < tid
    ensures
      var b := a + [Call(tid, sizes[tid]), Run(tid)];
      CallsOnce(b, sizes) && forall i :: 0 <= i < |b| && b[i].Call? ==> b[i].tid <= tid
  {
  }

  lemma OneChecks(pool: Pool, s: State, tid: nat, size: nat)
    requires pool.Valid() && pool.usablePage <= s.next && s.next + size <= pool.End() && tid !in s.threads
    ensures Possible(pool, s, [Call(tid, size), Run(tid)])
    ensures RunAll(pool, s, [Call(tid, size), Run(tid)]) == s.(threads := s.threads[tid := Fetching(size, s.next)])
  {
    hide RunAll, Possible, HasSpace;
    var s1 := Next(pool, s, Call(tid, size));
    RunOne(pool, s, Call(tid, size));
    SpaceInside(pool, s.next, size);
    RunOne(pool, s1, Run(tid));
    RunConcat(pool, s, [Call(tid, size)], [Run(tid)]);
    assert [Call(tid, size)] + [Run(tid)] == [Call(tid, size), Run(tid)];
    assert s.threads[tid := Checking(size)][tid := Fetching(size, s.next)] == s.threads[tid := Fetching(size, s.next)];
  }

  lemma RunNothing(pool: Pool, s: State)
    ensures Possible(pool, s, []) && RunAll(pool, s, []) == s
  {
  }

  lemma InvNext(pool: Pool, s: State)
    requires pool.Valid() && Inv(pool, s) && !s.wrapped
    ensures Aligned(s.next) && pool.usablePage <= s.next
  {
    hide BlocksApart;
  }

  /** The threads in `f` up to `k` swap one after the other, each as if nothing had happened since the checks. */
  function AfterSwaps(c: State, sizes: seq<nat>, k: nat, checked: nat, f: set<nat>): State
    requires k <= |sizes|
  {
    if k == 0 then c
    else
      var before := AfterSwaps(c, sizes, k - 1, checked, f);
      if k - 1 in f then Swapped(before, k - 1, sizes[k - 1], checked) else before
  }

  lemma {:induction false} SwapsLeave(c: State, sizes: seq<nat>, k: nat, checked: nat, f: set<nat>, t: nat)
    requires k <= |sizes| && k <= t && t in c.threads
    ensures
      var s := AfterSwaps(c, sizes, k, checked, f);
      t in s.threads && s.threads[t] == c.threads[t]
  {
    hide RoundUp;
    if k > 0 {
      SwapsLeave(c, sizes, k - 1, checked, f, t);
    }
  }

  ghost predicate NoCalls(steps: seq<Step>) {
    forall i :: 0 <= i < |steps| ==> !steps[i].Call?
  }

  ghost predicate HaveChecked(c: State, sizes: seq<nat>, checked: nat, f: set<nat>) {
    forall i :: i in f ==> i < |sizes| && i in c.threads && c.threads[i] == Fetching(sizes[i], checked)
  }

  lemma {:induction false} AllSwap(pool: Pool, c: State, sizes: seq<nat>, k: nat, checked: nat, f: set<nat>)
    returns (steps: seq<Step>)
    requires k <= |sizes| && HaveChecked(c, sizes, checked, f)
    ensures Possible(pool, c, steps) && NoCalls(steps) && RunAll(pool, c, steps) == AfterSwaps(c, sizes, k, checked, f)
  {
    hide RunAll, Possible, RoundUp, Swapped;
    steps := [];
    if k == 0 {
      RunNothing(pool, c);
    } else {
      steps := AllSwap(pool, c, sizes, k - 1, checked, f);
      if k - 1 in f {
        SwapsLeave(c, sizes, k - 1, checked, f, k - 1);
        FinishAlloc(pool, AfterSwaps(c, sizes, k - 1, checked, f), k - 1, sizes[k - 1], checked);
        RunConcat(pool, c, steps, [Run(k - 1), Run(k - 1), Run(k - 1)]);
        steps := steps + [Run(k - 1), Run(k - 1), Run(k - 1)];
      }
    }
  }

  /** Up to the first swap that leads out of the pages, each takes what it should. */
  lemma {:induction false} SwapsAdd(pool: Pool, c: State, sizes: seq<nat>, k: nat, checked: nat, f: set<nat>)
    requires pool.Valid() && k <= |sizes| && Aligned(c.next)
    requires c.next + Total(sizes, k, f) <= pool.End()
    ensures AfterSwaps(c, sizes, k, checked, f).next == c.next + Total(sizes, k, f)
  {
    hide RoundUp, Bumped, Aligned, Ids, Pool.Valid;
    if k > 0 {
      SwapsAdd(pool, c, sizes, k - 1, checked, f);
      TotalAligned(sizes, k - 1, f);
      AlignedSum(c.next, Total(sizes, k - 1, f));
      if k - 1 in f {
        BumpedInside(pool, AfterSwaps(c, sizes, k - 1, checked, f).next, sizes[k - 1]);
      }
    }
  }

  lemma BumpedInside(pool: Pool, next: nat, size: nat)
    requires pool.Valid() && Aligned(next) && next + RoundUp(size) <= pool.End()
    ensures Bumped(next, size) == next + RoundUp(size)
  {
    hide RoundUp;
    RoundUpFrom(next, size);
  }

  lemma {:induction false} TotalAligned(sizes: seq<nat>, n: nat, d: set<nat>)
    requires n <= |sizes|
    ensures Aligned(Total(sizes, n, d))
  {
    hide RoundUp, Aligned;
    if n > 0 {
      TotalAligned(sizes, n - 1, d);
      RoundedIsAligned(sizes[n - 1]);
      AlignedSum(Total(sizes, n - 1, d), RoundUp(sizes[n - 1]));
    } else {
      ZeroAligned();
    }
  }

  lemma ZeroAligned()
    ensures Aligned(0)
  {
  }

  lemma RoundedIsAligned(x: nat)
    ensures Aligned(RoundUp(x))
  {
    hide RoundUp;
  }

  lemma AlignedSum(x: nat, y: nat)
    requires Aligned(x) && Aligned(y)
    ensures Aligned(x + y)
  {
  }

  /** The first thread whose block does not fit any more. */
  lemma FirstOver(pool: Pool, next: nat, sizes: seq<nat>, n: nat, f: set<nat>) returns (k: nat)
    requires n <= |sizes| && next <= pool.End() < next + Total(sizes, n, f)
    ensures k < n && k in f && next + Total(sizes, k, f) <= pool.End() < next + Total(sizes, k + 1, f)
  {
    hide RoundUp;
    k := n - 1;
    if next + Total(sizes, n - 1, f) > pool.End() {
      k := FirstOver(pool, next, sizes, n - 1, f);
    }
  }

  lemma CallsThenRuns(a: seq<Step>, b: seq<Step>, sizes: seq<nat>)
    requires CallsOnce(a, sizes) && NoCalls(b)
    ensures CallsOnce(a + b, sizes)
  {
  }

  /** From the state in which all have checked, the swaps lead out of the pages. */
  lemma SwapsOverrun(pool: Pool, c: State, sizes: seq<nat>, next: nat, f: set<nat>) returns (steps: seq<Step>)
    requires pool.Valid() && c.next == next && Aligned(next) && next <= pool.End() < next + Total(sizes, |sizes|, f)
    requires HaveChecked(c, sizes, next, f)
    ensures Possible(pool, c, steps) && NoCalls(steps) && !BlocksGood(pool, RunAll(pool, c, steps))
  {
    hide RunAll, Possible, Total, BlocksGood, NoCalls, Ids, Swapped, Aligned, HaveChecked;
    var k := FirstOver(pool, next, sizes, |sizes|, f);
    steps := AllSwap(pool, c, sizes, k + 1, next, f);
    SwapsAdd(pool, c, sizes, k, next, f);
    BlockOver(pool, next, sizes, k, f);
    LastBlock(pool, AfterSwaps(c, sizes, k, next, f), k, sizes[k], next);
  }

  /**
   * If those that fit alone do not fit together, threads that all check before any of them swaps lead out of the
   * pages.
   */
  lemma SizesCanOverrun(pool: Pool, s: State, sizes: seq<nat>) returns (steps: seq<Step>)
    requires pool.Valid() && Quiet(pool, s) && s.next + FittingSum(pool, s.next, sizes) > pool.End()
    ensures Possible(pool, s, steps) && CallsOnce(steps, sizes) && !BlocksGood(pool, RunAll(pool, s, steps))
  {
    hide RunAll, Possible, BlocksApart, Inv, Total, BlocksGood, NoCalls, CallsOnce;
    InvNext(pool, s);
    var f := Fitting(pool, s.next, sizes, |sizes|);
    var checks := AllCheck(pool, s, sizes, |sizes|, f);
    var c := s.(threads := CheckedThreads(sizes, |sizes|, s.next, f));
    var swaps := SwapsOverrun(pool, c, sizes, s.next, f);
    RunConcat(pool, s, checks, swaps);
    CallsThenRuns(checks, swaps, sizes);
    steps := checks + swaps;
  }

  lemma BlockOver(pool: Pool, next: nat, sizes: seq<nat>, k: nat, f: set<nat>)
    requires pool.Valid() && k < |sizes| && k in f && Aligned(next)
    requires next + Total(sizes, k + 1, f) > pool.End()
    ensures next + Total(sizes, k, f) + sizes[k] > pool.End()
  {
    hide RoundUp, Aligned;
    var start := next + Total(sizes, k, f);
    TotalAligned(sizes, k, f);
    AlignedSum(next, Total(sizes, k, f));
    RoundUpFrom(start, sizes[k]);
    if start + sizes[k] <= pool.End() {
      RoundsInside(pool, start + sizes[k]);
    }
  }

  lemma LastBlock(pool: Pool, s: State, tid: nat, size: nat, checked: nat)
    requires s.next + size > pool.End()
    ensures !BlocksGood(pool, Swapped(s, tid, size, checked))
  {
    hide RoundUp;
    var s' := Swapped(s, tid, size, checked);
    assert s'.blocks[|s.blocks|] == Block(s.next, size);
  }

  /**
   * The exact condition, for a caller: all interleavings of the calls keep all blocks apart and inside of the usable
   * pages if and only if the calls that would have room alone, each rounded up to the alignment, have room together.
   * The others are always refused then.
   */
  lemma AllRunsGoodIff(pool: Pool, s: State, sizes: seq<nat>)
    requires pool.Valid() && Quiet(pool, s)
    ensures
      (forall steps :: Possible(pool, s, steps) && CallsOnce(steps, sizes) ==> BlocksGood(pool, RunAll(pool, s, steps)))
      <==> s.next + FittingSum(pool, s.next, sizes) <= pool.End()
  {
    hide RunAll, Possible, Total, BlocksApart, CallsOnce;
    if s.next + FittingSum(pool, s.next, sizes) <= pool.End() {
      var f := Fitting(pool, s.next, sizes, |sizes|);
      assert Room(pool, s.next, sizes, f);
      forall steps | Possible(pool, s, steps) && CallsOnce(steps, sizes)
        ensures BlocksGood(pool, RunAll(pool, s, steps))
      {
        RoomKeepsBlocksApart(pool, s, sizes, steps, f);
        ApartInside(pool, RunAll(pool, s, steps));
      }
    } else {
      var steps := SizesCanOverrun(pool, s, sizes);
    }
  }

  /** From a new pool on. */
  lemma InitialRunsGoodIff(pool: Pool, sizes: seq<nat>)
    requires pool.Valid()
    ensures
      var s := Initial(pool);
      (forall steps :: Possible(pool, s, steps) && CallsOnce(steps, sizes) ==> BlocksGood(pool, RunAll(pool, s, steps)))
      <==> s.next + FittingSum(pool, s.next, sizes) <= pool.End()
  {
    hide RunAll, Possible, FittingSum, CallsOnce, BlocksGood, Initial;
    InitialQuiet(pool);
    AllRunsGoodIff(pool, Initial(pool), sizes);
  }

  lemma ApartInside(pool: Pool, s: State)
    requires BlocksApart(pool, s) && s.next <= pool.End()
    ensures BlocksGood(pool, s)
  {
  }
}

/** What a reader gets to see of an `async_list` that writers change under it. */
module AsyncListReaders {
  import opened Common
  import opened AsyncList
  import opened AsyncListSafety
  import opened AsyncListSteps
  import opened AsyncListRuns

  /** The part of `c` up to and including the node `p` leads to; all of it for null. */
  function UpTo(c: seq<nat>, p: Ptr): seq<nat> {
    if c == [] then [] else if p == Some(c[0]) then [c[0]] else [c[0]] + UpTo(c[1..], p)
  }

  function Filter(c: seq<nat>, keep: set<nat>): seq<nat> {
    if c == [] then [] else (if c[0] in keep then [c[0]] else []) + Filter(c[1..], keep)
  }

  /**
   * Of the nodes that have been linked ever since it started, a reader has seen those up to its current node: each of
   * them once, in the order of the list.
   */
  ghost predicate HasSeen(c: seq<nat>, r: Reader) {
    r.started && !r.lost ==>
      && (forall x :: x in r.stay ==> x in c)
      && (r.cur.Some? ==> r.cur.value in c)
      && Filter(r.visited, r.stay) == Filter(UpTo(c, r.cur), r.stay)
  }

  ghost predicate AllHaveSeen(s: State) {
    forall t :: t in s.readers ==> HasSeen(s.chain, s.readers[t])
  }

  lemma {:induction false} UpToNull(c: seq<nat>)
    ensures UpTo(c, None) == c
  {
    if c != [] {
      UpToNull(c[1..]);
    }
  }

  lemma {:induction false} UpToAt(c: seq<nat>, k: nat)
    requires Distinct(c) && k < |c|
    ensures UpTo(c, Some(c[k])) == c[..k + 1]
  {
    if k > 0 {
      assert c[0] != c[k];
      UpToAt(c[1..], k - 1);
      assert c[..k + 1] == [c[0]] + c[1..][..k];
    }
  }

  lemma {:induction false} UpToAppended(c: seq<nat>, n: nat, p: Ptr)
    requires p != Some(n)
    ensures UpTo(c + [n], p) == if p.Some? && p.value in c then UpTo(c, p) else UpTo(c, p) + [n]
  {
    if c == [] {
      assert [n][1..] == [];
    } else {
      assert (c + [n])[1..] == c[1..] + [n];
      UpToAppended(c[1..], n, p);
    }
  }

  lemma {:induction false} FilterConcat(a: seq<nat>, b: seq<nat>, keep: set<nat>)
    ensures Filter(a + b, keep) == Filter(a, keep) + Filter(b, keep)
  {
    if a == [] {
      assert a + b == b;
    } else {
      assert (a + b)[1..] == a[1..] + b;
      FilterConcat(a[1..], b, keep);
      var first := if a[0] in keep then [a[0]] else [];
      assert first + (Filter(a[1..], keep) + Filter(b, keep)) == (first + Filter(a[1..], keep)) + Filter(b, keep);
    }
  }

  /** Taking out a node that no filter keeps. */
  lemma {:induction false} FilterWithout(c: seq<nat>, x: nat, p: Ptr, keep: set<nat>)
    requires x !in keep && p != Some(x)
    ensures Filter(UpTo(Without(c, x), p), keep) == Filter(UpTo(c, p), keep)
  {
    if c != [] {
      FilterWithout(c[1..], x, p, keep);
      if p != Some(c[0]) {
        FilterConcat([c[0]], UpTo(c[1..], p), keep);
        FilterConcat([c[0]], UpTo(Without(c[1..], x), p), keep);
        if c[0] != x {
          assert Without(c, x)[1..] == Without(c[1..], x);
        }
      } else {
        assert Without(c, x)[0] == c[0];
      }
    }
  }

  lemma {:induction false} FilterTwice(c: seq<nat>, keep: set<nat>, fewer: set<nat>)
    requires fewer <= keep
    ensures Filter(Filter(c, keep), fewer) == Filter(c, fewer)
  {
    if c != [] {
      FilterTwice(c[1..], keep, fewer);
      FilterConcat(if c[0] in keep then [c[0]] else [], Filter(c[1..], keep), fewer);
    }
  }

  lemma PrependKeepsSeen(c: seq<nat>, n: nat, r: Reader)
    requires HasSeen(c, r) && n !in c
    ensures HasSeen([n] + c, r)
  {
    assert ([n] + c)[1..] == c;
    FilterConcat([n], UpTo(c, r.cur), r.stay);
  }

  lemma AppendKeepsSeen(c: seq<nat>, n: nat, r: Reader)
    requires HasSeen(c, r) && n !in c
    ensures HasSeen(c + [n], r)
  {
    if r.cur != Some(n) {
      UpToAppended(c, n, r.cur);
      FilterConcat(UpTo(c, r.cur), [n], r.stay);
    }
  }

  lemma UnlinkKeepsSeen(c: seq<nat>, x: nat, r: Reader)
    requires HasSeen(c, r)
    ensures HasSeen(Without(c, x), NoteUnlinked(r, x))
  {
    var r' := NoteUnlinked(r, x);
    if r'.started && !r'.lost {
      OnlyOldNodes(c, x);
      FilterWithout(c, x, r.cur, r'.stay);
      FilterTwice(r.visited, r.stay, r'.stay);
      FilterTwice(UpTo(c, r.cur), r.stay, r'.stay);
    }
  }

  /** Following the next link from where the reader stands. */
  lemma AdvanceKeepsSeen(nodes: map<nat, Node>, c: seq<nat>, r: Reader)
    requires Nexts(nodes, c) && Distinct(c) && HasSeen(c, r) && r.cur.Some? && r.cur.value in nodes
    ensures HasSeen(c, Reached(r, nodes[r.cur.value].next))
  {
    var r' := Reached(r, nodes[r.cur.value].next);
    if r.started && !r.lost {
      var k :| 0 <= k < |c| && c[k] == r.cur.value;
      UpToAt(c, k);
      NextOnChain(nodes, c, k);
      if k + 1 < |c| {
        UpToAt(c, k + 1);
        assert c[..k + 2] == c[..k + 1] + [c[k + 1]];
        FilterConcat(c[..k + 1], [c[k + 1]], r.stay);
        FilterConcat(r.visited, [c[k + 1]], r.stay);
      } else {
        UpToNull(c);
        assert r'.visited == r.visited && c[..k + 1] == c;
      }
    }
  }

  lemma StartHasSeen(c: seq<nat>)
    ensures HasSeen(c, Reached(Reader(true, None, [], set x | x in c, false), First(c)))
  {
    if c != [] {
      assert UpTo(c, Some(c[0])) == [c[0]];
      assert [] + [c[0]] == [c[0]];
    }
  }

  lemma ChainEffectKeepsSeen(s: State, s': State)
    requires AllHaveSeen(s) && ChainEffect(s, s')
    ensures AllHaveSeen(s')
  {
    hide HasSeen, Without, NoteUnlinked;
    forall t | t in s'.readers ensures HasSeen(s'.chain, s'.readers[t]) {
      var r := s.readers[t];
      if s'.chain == s.chain && s'.readers == s.readers {
      } else if n :| n !in s.chain && s'.chain == [n] + s.chain && s'.readers == s.readers {
        PrependKeepsSeen(s.chain, n, r);
      } else if n :| n !in s.chain && s'.chain == s.chain + [n] && s'.readers == s.readers {
        AppendKeepsSeen(s.chain, n, r);
      } else {
        var n :| s'.chain == Without(s.chain, n)
                   && s'.readers == map t | t in s.readers :: NoteUnlinked(s.readers[t], n);
        UnlinkKeepsSeen(s.chain, n, r);
      }
    }
  }

  lemma StepKeepsSeen(s: State, step: Step)
    requires Inv(s) && Enabled(s, step) && AllHaveSeen(s)
    ensures AllHaveSeen(Next(s, step))
  {
    hide Inv, HasSeen, StepWriter, Reached;
    match step
    case WriterStep(address) =>
      WriterChainEffect(s, address);
      ChainEffectKeepsSeen(s, StepWriter(s, address));
    case Enter(t) =>
      NotStartedHasSeen(s.chain);
    case Start(t) =>
      ListForward(s);
      StartHasSeen(s.chain);
    case Advance(t) =>
      ListForward(s);
      AdvanceKeepsSeen(s.nodes, s.chain, s.readers[t]);
    case _ =>
  }

  lemma NotStartedHasSeen(c: seq<nat>)
    ensures HasSeen(c, Reader(false, None, [], {}, false))
  {
  }

  lemma ListForward(s: State)
    requires Inv(s)
    ensures Nexts(s.nodes, s.chain) && Distinct(s.chain) && s.head == First(s.chain)
    ensures forall t :: t in s.readers && s.readers[t].cur.Some? ==> s.readers[t].cur.value in s.nodes
  {
    hide Nexts, Prevs, Distinct, BackwardLinks;
  }

  lemma {:induction false} RunKeepsSeen(s: State, steps: seq<Step>)
    requires Inv(s) && AllHaveSeen(s) && Possible(s, steps)
    ensures AllHaveSeen(Run(s, steps))
    decreases steps
  {
    hide Inv, Next, Enabled, AllHaveSeen;
    if steps != [] {
      StepKeepsInv(s, steps[0]);
      StepKeepsSeen(s, steps[0]);
      RunKeepsSeen(Next(s, steps[0]), steps[1..]);
    }
  }

  lemma {:induction false} FilterKeepsDistinct(c: seq<nat>, keep: set<nat>)
    requires Distinct(c)
    ensures Distinct(Filter(c, keep)) && forall x :: x in Filter(c, keep) <==> x in c && x in keep
  {
    if c != [] {
      FilterKeepsDistinct(c[1..], keep);
    }
  }

  /**
   * A reader that has come to the end without its current node being removed under it has visited every node that
   * stayed linked all the time, once each and in list order, whatever readers and writers did in between.
   */
  lemma ReaderVisitsWhatStays(steps: seq<Step>, t: nat)
    requires Possible(Initial(), steps) && t in Run(Initial(), steps).readers
    ensures
      var s := Run(Initial(), steps);
      var r := s.readers[t];
      r.started && !r.lost && r.cur.None? ==>
        && Filter(r.visited, r.stay) == Filter(s.chain, r.stay)
        && Distinct(Filter(r.visited, r.stay))
        && forall x :: x in r.stay ==> x in r.visited
  {
    hide Inv, Possible, Run;
    InitialInv();
    assert AllHaveSeen(Initial());
    RunKeepsSeen(Initial(), steps);
    RunsKeepInv(Initial(), steps);
    var s := Run(Initial(), steps);
    var r := s.readers[t];
    ListForward(s);
    UpToNull(s.chain);
    FilterKeepsDistinct(s.chain, r.stay);
    FilterSubset(r.visited, r.stay);
  }

  lemma {:induction false} FilterSubset(c: seq<nat>, keep: set<nat>)
    ensures forall x :: x in Filter(c, keep) ==> x in c
  {
    if c != [] {
      FilterSubset(c[1..], keep);
    }
  }

  /**
   * The other readers: right after a node has been recycled under a reader that stands on it, the link that the reader
   * follows next leads into the free list. It leads back to the list when the node is taken again; see ReuseLeadsBack.
   */
  lemma RecyclingDivertsReader(s: State, address: nat, t: nat)
    requires Inv(s) && s.writer.Recycling? && t in s.readers && s.readers[t].cur == Some(s.writer.item)
    ensures
      var s' := StepWriter(StepWriter(s, address), address);
      && s'.readers == s.readers && s'.chain == s.chain && s'.freed == [s.writer.item] + s.freed
      && At(s', s'.readers[t].cur).next == First(s.freed) && forall x :: x in s'.freed ==> x !in s'.chain
  {
    hide Inv, StepWriter;
    FreeIsHead(s);
    var n, s1 := s.writer.item, StepWriter(s, address);
    StoresFree(s, address);
    RecyclingStep(s, address);
    FreeIsHead(s1);
    ChainsFree(s1, address);
    ChainFreeStep(s1, address);
    FreeIsHead(StepWriter(s1, address));
    assert s1.freed == s.freed && n !in s.freed;
  }

  lemma FreeIsHead(s: State)
    requires Inv(s)
    ensures s.free == First(s.freed) && (s.freed != [] ==> s.freed[0] in s.nodes)
    ensures forall x :: x in s.freed ==> x !in s.chain && x !in Private(s.writer)
    ensures s.writer.Recycling? ==> s.writer.item in s.nodes
  {
    hide Nexts, Prevs, Distinct, BackwardLinks;
  }

  /** The writer's node, once its link has been set to a linked node, or still is. */
  predicate LeadsBack(s: State, x: nat) {
    && x in Private(s.writer) && At(s, Some(x)).next.Some?
    && (s.writer.FrontNext? || s.writer.FrontPrev? || s.writer.Unlinked? || s.writer.Detached? || s.writer.Recycling?)
  }

  /** The kinds of nodes whose link does not lead to a linked node. */
  ghost predicate StaysOut(s: State, x: nat) {
    var next := At(s, Some(x)).next;
    || next.None?
    || (next.value in s.freed && (x in s.freed || s.writer == Chained(x)))
    || (next.value in s.leaked && x in s.leaked)
  }

  /**
   * Wherever a reader can stand in any state that any run reaches: its next link leads to a linked node if and only
   * if its node is linked and not the last one, or is the writer's and its link is set to one. Otherwise the link is
   * null, or stays among the free or among the leaked nodes.
   */
  lemma NextLinkedIff(s: State, x: nat)
    requires Inv(s) && Holdable(ViewOf(s), x)
    ensures
      var next := At(s, Some(x)).next;
      var linked := next.Some? && next.value in s.chain;
      && (linked <==> (x in s.chain && Some(x) != LastOf(s.chain)) || LeadsBack(s, x))
      && (!linked ==> StaysOut(s, x))
  {
    hide Inv;
    LinksOf(s, x);
    if x in s.chain {
    } else if x in s.freed {
    } else if x in s.leaked {
    } else {
      PrivateLink(s, x);
    }
  }

  lemma LinksOf(s: State, x: nat)
    requires Inv(s) && Holdable(ViewOf(s), x)
    ensures x in s.nodes
    ensures x in s.chain ==>
      var next := s.nodes[x].next;
      x !in Private(s.writer) && (if Some(x) == LastOf(s.chain) then next.None? else next.Some? && next.value in s.chain)
    ensures x in s.freed ==>
      var next := s.nodes[x].next;
      x !in Private(s.writer) && (next.Some? ==> next.value in s.freed && next.value !in s.chain)
    ensures x in s.leaked ==>
      var next := s.nodes[x].next;
      x !in Private(s.writer) && (next.Some? ==> next.value in s.leaked && next.value !in s.chain)
  {
    hide Nexts, Prevs, Distinct, BackwardLinks;
    var v := ViewOf(s);
    if x in s.chain {
      var i :| 0 <= i < |s.chain| && s.chain[i] == x;
      LinkAt(v.nodes, v.chain, i);
      LastOnce(s.chain, i);
    } else if x in s.freed {
      var i :| 0 <= i < |s.freed| && s.freed[i] == x;
      LinkAt(v.nodes, v.freed, i);
    }
  }

  lemma LastOnce(c: seq<nat>, i: nat)
    requires Distinct(c) && i < |c|
    ensures Some(c[i]) == LastOf(c) <==> i + 1 == |c|
  {
  }

  lemma PrivateLink(s: State, x: nat)
    requires Inv(s) && x in Private(s.writer) && s.writer != Deleting(x)
    ensures
      var next := At(s, Some(x)).next;
      if next.Some? && next.value in s.chain then LeadsBack(s, x)
      else !LeadsBack(s, x) && (next.None? || (s.writer == Chained(x) && next.value in s.freed))
  {
    hide Nexts, Prevs, Distinct;
  }

  /** For the readers of any run. */
  lemma ReaderLinkedIff(steps: seq<Step>, t: nat)
    requires Possible(Initial(), steps) && t in Run(Initial(), steps).readers
      && Run(Initial(), steps).readers[t].cur.Some?
    ensures
      var s := Run(Initial(), steps);
      var x := s.readers[t].cur.value;
      var next := At(s, Some(x)).next;
      var linked := next.Some? && next.value in s.chain;
      && (linked <==> (x in s.chain && Some(x) != LastOf(s.chain)) || LeadsBack(s, x))
      && (!linked ==> StaysOut(s, x))
  {
    hide Inv, Possible, Run, LeadsBack, StaysOut, Holdable;
    InitialInv();
    RunsKeepInv(Initial(), steps);
    var s := Run(Initial(), steps);
    ReaderHolds(s, t);
    NextLinkedIff(s, s.readers[t].cur.value);
  }

  lemma ReaderHolds(s: State, t: nat)
    requires Inv(s) && t in s.readers && s.readers[t].cur.Some?
    ensures Holdable(ViewOf(s), s.readers[t].cur.value)
  {
    hide Sound, Holdable;
  }

  /** A writer takes the lock to prepend `value`, takes a node and sets its link. */
  function Reusing(value: int, address: nat): seq<Step> {
    [LockInsert(true, value), WriterStep(address), WriterStep(address)]
  }

  lemma TakesAgain(s: State, value: int, address: nat) returns (s': State)
    requires Inv(s) && s.writer.Idle? && s.freed != [] && s.chain != [] && address !in s.nodes
    ensures Possible(s, Reusing(value, address)) && s' == Run(s, Reusing(value, address))
    ensures Inv(s') && s'.writer == FrontNext(s.freed[0]) && s'.readers == s.readers && s'.chain == s.chain
    ensures address !in s'.nodes && s.freed[0] in s'.nodes && s'.nodes[s.freed[0]] == Node(value, None, First(s.chain))
  {
    hide Inv, StepWriter, Distinct, Nexts, Prevs, Possible, Run;
    var s1 := Next(s, LockInsert(true, value));
    StepKeepsInv(s, LockInsert(true, value));
    FreeIsHead(s1);
    HeadIsFirst(s1);
    var s2 := StepWriter(s1, address);
    Recycles(s1, address);
    WriterStepKeepsInv(s1, address);
    HeadIsFirst(s2);
    TailOfEmpty(s2);
    s' := StepWriter(s2, address);
    LinksFront(s2, address);
    WriterStepKeepsInv(s2, address);
    RunNone(s');
    var last := [WriterStep(address)] + [];
    RunFirst(s2, WriterStep(address), []);
    RunFirst(s1, WriterStep(address), last);
    RunFirst(s, LockInsert(true, value), [WriterStep(address)] + last);
    assert Reusing(value, address) == [LockInsert(true, value)] + ([WriterStep(address)] + last);
  }

  lemma RunNone(s: State)
    ensures Possible(s, []) && Run(s, []) == s
  {
  }

  lemma RunFirst(s: State, step: Step, rest: seq<Step>)
    requires Enabled(s, step) && Possible(Next(s, step), rest)
    ensures Possible(s, [step] + rest) && Run(s, [step] + rest) == Run(Next(s, step), rest)
  {
    hide Next, Enabled;
    assert ([step] + rest)[1..] == rest;
  }

  lemma HeadIsFirst(s: State)
    requires Inv(s)
    ensures s.head == First(s.chain)
  {
    hide Nexts, Prevs, Distinct, BackwardLinks;
  }

  /**
   * A reader that stands on a node when it is taken again for the front of the list gets back to the head of the
   * list.
   */
  lemma ReuseLeadsBack(s: State, value: int, address: nat, t: nat) returns (s': State)
    requires Inv(s) && s.writer.Idle? && s.freed != [] && s.chain != [] && address !in s.nodes
    requires t in s.readers && s.readers[t].cur == Some(s.freed[0])
    ensures Possible(s, Reusing(value, address)) && s' == Run(s, Reusing(value, address))
    ensures Inv(s') && s'.chain == s.chain && s'.readers == s.readers
      && At(s', s'.readers[t].cur).next == Some(s.chain[0])
  {
    hide Inv, StepWriter, Possible, Run;
    s' := TakesAgain(s, value, address);
  }
}

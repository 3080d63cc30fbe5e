/** The test harness's closing sequence, end() in test/gctest.c.

    After the script, end() sets every generation's promotion interval and
    the oldest generation's refresh interval to one nanosecond, runs one
    gc() call, restores the refresh interval, and calls gc() until a call
    runs to the end. It then compares the survivors with the count of the
    Ruby oracle, which marks from the rooted objects.

    The forced call does not re-examine objects that are already grey: the
    refresh turns black objects silver, but a grey one is blackened by the
    mark phase and kept. An object that gc_add_root or the write barrier
    greyed, and that became unreachable afterwards, therefore survives the
    forced call; when that call runs to the end, cycle_full is set, the
    loop never runs, and the harness counts one survivor more than the
    oracle. `FloatingGarbage` exhibits this on a three-command script.

    A closing sequence that first lets a cycle complete, so that no object
    is grey, and only then forces the promotion and refresh, does keep
    exactly the objects the oracle predicts, as long as the forced call's
    cleanup and generation loop do not pause: `CorrectedClose`. */
module Closing {
  import opened MarkWord
  import opened Lists
  import opened Reach
  import opened Heap
  import opened Collector
  import opened Mutator
  import opened Survival

  // ---------------------------------------------------------------------
  // A heap of one object, and what a gc() call does to it.

  /** In a heap whose only object is `x`, every list but the one `x` is on
      is empty. */
  lemma Lone(st: Gc, x: Id, l: Loc)
    requires WellFormed(st) && st.objs.Keys == {x} && l != st.objs[x].link
    ensures At(st, l) == []
  {
    if At(st, l) != [] {
      HeadIn(At(st, l));
      assert false;
    }
  }

  lemma HeadIn(s: seq<Id>)
    requires s != []
    ensures s[0] in s
  {
  }

  /** Slot loop of gc_mark_black over null slots only: nothing to do, no
      work counted. */
  lemma {:induction false} NullRefs(st: Gc, s: Stats, clock: Clock, refs: seq<Ref>)
    requires Inv(st) && forall k :: 0 <= k < |refs| ==> refs[k] == Null
    ensures MarkRefs(st, s, clock, refs) == Run(st, s, false)
    decreases |refs|
  {
    if refs != [] {
      NullRefs(st, s, clock, refs[1..]);
    }
  }

  /** With every black list from generation `i` on empty, the rest of the
      generation loop finds nothing to promote or refresh. */
  lemma {:induction false} GenerationsIdle(st: Gc, s: Stats, clock: Clock, i: nat)
    requires Inv(st) && i <= st.gens
    requires forall j :: i <= j < st.gens ==> At(st, BlackList(j)) == []
    ensures Generations(st, s, clock, i) == Run(st, s, false)
    decreases st.gens - i
  {
    if i < st.gens {
      GenerationIdle(st, s, clock, i);
      GenerationsIdle(st, s, clock, i + 1);
    }
  }

  /** Promotion and refresh of a generation with an empty black list do
      nothing. */
  lemma GenerationIdle(st: Gc, s: Stats, clock: Clock, i: nat)
    requires Inv(st) && i < st.gens && At(st, BlackList(i)) == []
    ensures Generation(st, s, clock, i) == Run(st, s, false)
  {
    assert st.lists[BlackList(i)] == [];
  }

  /** The grey loop on a heap whose only object is grey and refers to
      nothing: one round blackens it, and unless that round's unit of work
      reaches the pause threshold the loop ends there. */
  lemma LoneGreyLoop(st: Gc, s: Stats, clock: Clock, x: Id)
    requires Inv(st) && st.objs.Keys == {x} && LinkIs(st, x, GreyList)
    requires forall k :: 0 <= k < |st.objs[x].slots| ==> st.objs[x].slots[k] == Null
    requires s.threshold + 1 < st.pauseThreshold
    ensures !GreyLoop(st, s, clock).paused
    ensures GreyLoop(st, s, clock).st.objs.Keys == {x}
    ensures GreyLoop(st, s, clock).st.objs[x].link.BlackList?
  {
    var b := LoneBlacken(st, s, clock, x);
    GreyStepIs(st, s, clock);
    GreyStepGoes(st, s, clock);
    LoneLoop(st, s, clock);
  }

  /** gc_mark_black on the only object, grey and referring to nothing,
      blackens it without counting work and empties the grey list. */
  lemma LoneBlacken(st: Gc, s: Stats, clock: Clock, x: Id) returns (b: Gc)
    requires Inv(st) && st.objs.Keys == {x} && LinkIs(st, x, GreyList)
    requires forall k :: 0 <= k < |st.objs[x].slots| ==> st.objs[x].slots[k] == Null
    ensures st.lists[GreyList] != [] && st.lists[GreyList][0] == x
    ensures Collector.MarkBlack(st, s, clock, x) == Run(b, s, false)
    ensures Inv(b) && At(b, GreyList) == [] && b.pauseThreshold == st.pauseThreshold
    ensures b.objs.Keys == {x} && b.objs[x].link.BlackList?
  {
    HeadLink(st, GreyList);
    assert st.lists[GreyList][0] == x;
    var m := MarkRefs(st, s, clock, st.objs[x].slots);
    NullRefs(st, s, clock, st.objs[x].slots);
    assert LiveRefs(st, st.objs[x].slots);
    MarkBlackSteps(st, s, clock, x, m);
    b := Blacken(st, x);
    Lone(b, x, GreyList);
  }

  /** A round of the grey loop that empties the grey list, without
      pausing, ends the loop. */
  lemma LoneLoop(st: Gc, s: Stats, clock: Clock)
    requires Inv(st) && st.lists[GreyList] != []
    requires !GreyStep(st, s, clock).paused && At(GreyStep(st, s, clock).st, GreyList) == []
    ensures !GreyLoop(st, s, clock).paused && GreyLoop(st, s, clock).st == GreyStep(st, s, clock).st
  {
    assert GreyStep(st, s, clock).st.lists[GreyList] == [];
  }

  /** Cleanup with an empty transparent list does nothing. */
  lemma CleanupIdle(st: Gc, s: Stats, clock: Clock)
    requires Inv(st) && At(st, TransparentList) == []
    ensures Cleanup(st, s, clock) == Run(st, s, false)
  {
    assert st.lists[TransparentList] == [];
  }

  /** With only black objects left, the silver loop, the sweep and the
      final cleanup find nothing to do, and the call ends. */
  lemma IdleTail(st: Gc, s: Stats, clock: Clock)
    requires Inv(st) && !s.full
    requires At(st, TransparentList) == [] && At(st, WhiteList) == [] && At(st, SilverList) == [] && At(st, GreyList) == []
    ensures !SilverOnward(st, s, clock).paused && SilverOnward(st, s, clock).st == st
  {
    assert st.lists[SilverList] == [] && st.lists[WhiteList] == [];
    assert SilverLoop(st, s, clock) == Run(st, s, false);
    assert SweepPhase(st, s, clock) == Run(st, s, false);
    CleanupIdle(st, s, clock);
    IdleFinal(st, s, clock);
  }

  lemma IdleFinal(st: Gc, s: Stats, clock: Clock)
    requires Inv(st) && !s.full
    requires At(st, WhiteList) == [] && At(st, SilverList) == [] && At(st, GreyList) == []
    requires Cleanup(st, s, clock) == Run(st, s, false)
    ensures FinalCleanup(st, s, clock).st == st && !FinalCleanup(st, s, clock).paused
  {
  }

  /** A gc() call on a heap whose only object is grey, has no roots and
      refers to nothing: nothing is freed, the call runs to the end, and
      the object is left black. */
  lemma FloatingSurvives(st: Gc, clock: Clock, x: Id)
    requires Inv(st) && st.objs.Keys == {x} && LinkIs(st, x, GreyList)
    requires forall k :: 0 <= k < |st.objs[x].slots| ==> st.objs[x].slots[k] == Null
    requires 1 < st.pauseThreshold
    ensures !Collect(st, clock).paused && Collect(st, clock).st.objs.Keys == {x}
  {
    var s0 := Stats(0, 0, 0, false, 0);
    Lone(st, x, TransparentList);
    CleanupIdle(st, s0, clock);
    forall j | 0 <= j < st.gens ensures At(st, BlackList(j)) == [] {
      Lone(st, x, BlackList(j));
    }
    GenerationsIdle(st, s0, clock, 0);
    LoneGreyLoop(st, s0, clock, x);
    var c := GreyLoop(st, s0, clock);
    Lone(c.st, x, TransparentList);
    Lone(c.st, x, WhiteList);
    Lone(c.st, x, SilverList);
    Lone(c.st, x, GreyList);
    IdleTail(c.st, c.stats, clock);
    FloatingOnward(st, s0, clock);
  }

  /** How gc() composes its phases when the cleanup and the generation loop
      do nothing and the grey loop does not pause. */
  lemma FloatingOnward(st: Gc, s: Stats, clock: Clock)
    requires Inv(st) && s == Stats(0, 0, 0, false, 0)
    requires Cleanup(st, s, clock) == Run(st, s, false) && Generations(st, s, clock, 0) == Run(st, s, false)
    requires !GreyLoop(st, s, clock).paused
    ensures var c := GreyLoop(st, s, clock);
            Collect(st, clock).st == SilverOnward(c.st, c.stats, clock).st
    ensures var c := GreyLoop(st, s, clock);
            Collect(st, clock).paused == SilverOnward(c.st, c.stats, clock).paused
  {
  }

  // ---------------------------------------------------------------------
  // end() as written.

  /** What end()'s loop leaves: the heap, and whether the last call ran to
      the end (cycle_full). */
  datatype Closed = Closed(st: Gc, full: bool)

  /** end()'s calls from the forced one on: gc() with each clock in turn,
      until a call runs to the end or the clocks run out. Nothing reachable
      is freed, and a state reached by a call that ran to the end has every
      object black. */
  function Finish(st: Gc, clocks: seq<Clock>): (r: Closed)
    requires Inv(st)
    ensures Inv(r.st) && Evolves(st, r.st)
    ensures r.full ==> clocks != [] && forall y :: y in r.st.objs ==> r.st.objs[y].link.BlackList?
    decreases |clocks|
  {
    if clocks == [] then
      EvolvesRefl(st);
      Closed(st, false)
    else
      var c := Collect(st, clocks[0]);
      if !c.paused then Closed(c.st, true)
      else
        var r := Finish(c.st, clocks[1..]);
        EvolvesTrans(st, c.st, r.st);
        r
  }

  /** `0=1`: object 0, with one slot, is created white. */
  function Created(): (st: Gc)
    ensures Inv(st) && st.gens == 3 && st.pauseThreshold == 100
    ensures st.objs.Keys == {0} && LinkIs(st, 0, WhiteList)
    ensures st.objs[0].mark.roots == 0 && st.objs[0].slots == [Null]
  {
    var a := Init(3, 100).st;
    AllocInv(a, 1);
    Alloc(a, 1).st
  }

  /** `+0`: rooting the white object greys it. */
  function Rooted(): (st: Gc)
    ensures Inv(st) && st.gens == 3 && st.pauseThreshold == 100
    ensures st.objs.Keys == {0} && LinkIs(st, 0, GreyList)
    ensures st.objs[0].mark.roots == 1 && st.objs[0].slots == [Null]
  {
    var b := Created();
    AddRootInv(b, 0);
    AddRoot(b, 0)
  }

  /** The script `0=1 +0 -0` under the harness's configuration (three
      generations, pause threshold 100): after `-0` the object has no
      roots left but stays grey. */
  function Script(): (st: Gc)
    ensures Inv(st) && st.gens == 3 && st.pauseThreshold == 100
    ensures st.objs.Keys == {0} && LinkIs(st, 0, GreyList)
    ensures st.objs[0].mark.roots == 0 && st.objs[0].slots == [Null]
  {
    var c := Rooted();
    RemoveRootInv(c, 0);
    RemoveRoot(c, 0)
  }

  /** A graph in which no node has roots reaches nothing. */
  lemma NoneHeld(g: Graph)
    requires forall x :: x in g ==> g[x].roots == 0
    ensures Reached(g) == {}
  {
    forall x | x in g ensures !Reachable(g, x) {
    }
  }

  /** end() as written miscounts `0=1 +0 -0`. The oracle roots nothing and
      expects no survivor. The object is grey when end() starts, so its
      forced gc() call blackens it and runs to the end, whatever the
      clock reads: cycle_full is set, the loop does not run, and the
      object survives to be counted. */
  lemma FloatingGarbage(clocks: seq<Clock>)
    requires clocks != []
    ensures Reached(View(Script())) == {}
    ensures Finish(Script(), clocks).full
    ensures Finish(Script(), clocks).st.objs.Keys == {0}
  {
    var st := Script();
    NoneHeld(View(st));
    FloatingSurvives(st, clocks[0], 0);
    FinishStep(st, clocks);
  }

  // ---------------------------------------------------------------------
  // A closing sequence that keeps exactly what the oracle predicts when
  // its forced call does not pause before the mark phase.

  /** A heap whose objects are all black has no grey object, so the forced
      call, with every generation due and its cleanup and generation loop
      not paused, leaves every grey or black object reachable. */
  lemma ForcedAfterFull(st: Gc, clock: Clock)
    requires Inv(st) && forall y :: y in st.objs ==> st.objs[y].link.BlackList?
    requires Forced(st, clock)
    ensures MarkedReachable(Collect(st, clock).st)
  {
    assert Greys(st) == {};
    ForcedCollect(st, clock);
  }

  /** A step that frees only unreachable objects leaves the reachable set
      as it was. */
  lemma EvolvesReached(st: Gc, r: Gc)
    requires Evolves(st, r)
    ensures Reached(View(r)) == Reached(View(st))
  {
    EvolvesReach(st, r);
  }

  /** Calls that start with every grey or black object reachable, and end
      with one that runs to the end, keep exactly the reachable objects. */
  lemma {:induction false} FinishComplete(st: Gc, clocks: seq<Clock>)
    requires Inv(st) && MarkedReachable(st) && Finish(st, clocks).full
    ensures Finish(st, clocks).st.objs.Keys == Reached(View(st))
    decreases |clocks|
  {
    var c := Collect(st, clocks[0]);
    if !c.paused {
      CollectComplete(st, clocks[0]);
    } else {
      CollectMarked(st, clocks[0]);
      FinishComplete(c.st, clocks[1..]);
      EvolvesReached(st, c.st);
    }
  }

  /** The first of end()'s calls, and the rest. */
  lemma FinishStep(st: Gc, clocks: seq<Clock>)
    requires Inv(st) && clocks != []
    ensures !Collect(st, clocks[0]).paused ==> Finish(st, clocks) == Closed(Collect(st, clocks[0]).st, true)
    ensures Collect(st, clocks[0]).paused ==> Finish(st, clocks) == Finish(Collect(st, clocks[0]).st, clocks[1..])
  {
  }

  /** The harness's forced call: every generation is due, and neither the
      cleanup nor the generation loop pauses. */
  ghost predicate Forced(m: Gc, clock: Clock)
    requires Inv(m)
  {
    var a := Cleanup(m, Stats(0, 0, 0, false, 0), clock);
    && (forall j :: 0 <= j < m.gens ==> Due(clock, m.gens, j))
    && !a.paused && !Generations(a.st, a.stats, clock, 0).paused
  }

  /** From a heap whose objects are all black, the forced call, with the
      first clock, and the calls after it keep exactly the reachable
      objects. */
  lemma ForcedFinish(m: Gc, clocks: seq<Clock>)
    requires Inv(m) && forall y :: y in m.objs ==> m.objs[y].link.BlackList?
    requires clocks != [] && Forced(m, clocks[0])
    requires Finish(m, clocks).full
    ensures Finish(m, clocks).st.objs.Keys == Reached(View(m))
  {
    ForcedAfterFull(m, clocks[0]);
    FinishStep(m, clocks);
    if !Collect(m, clocks[0]).paused {
      MarkedComplete(m, clocks[0]);
    } else {
      MarkedPaused(m, clocks[0], clocks[1..]);
    }
  }

  /** A call that runs to the end and leaves every grey or black object
      reachable keeps exactly the reachable objects. */
  lemma MarkedComplete(m: Gc, clock: Clock)
    requires Inv(m) && MarkedReachable(Collect(m, clock).st) && !Collect(m, clock).paused
    ensures Collect(m, clock).st.objs.Keys == Reached(View(m))
  {
    var f := Collect(m, clock);
    assert Shades(f.st) == f.st.objs.Keys;
    ExactlyReached(m, f.st);
  }

  /** A call that pauses with every grey or black object reachable, and
      calls after it that end with one that runs to the end, keep exactly
      the reachable objects. */
  lemma MarkedPaused(m: Gc, clock: Clock, clocks: seq<Clock>)
    requires Inv(m) && MarkedReachable(Collect(m, clock).st) && Collect(m, clock).paused
    requires Finish(Collect(m, clock).st, clocks).full
    ensures Finish(Collect(m, clock).st, clocks).st.objs.Keys == Reached(View(m))
  {
    var f := Collect(m, clock);
    FinishComplete(f.st, clocks);
    EvolvesReached(m, f.st);
  }

  /** The corrected end(): gc() until a call runs to the end, then the
      forced call and gc() until a call runs to the end again. When the
      forced call's cleanup and generation loop do not pause (`Forced`),
      the survivors are exactly the oracle's black list over the heap the
      script left, and as many. */
  lemma CorrectedClose(st: Gc, first: seq<Clock>, clocks: seq<Clock>, black: seq<Id>)
    requires Inv(st) && Finish(st, first).full
    requires clocks != [] && Forced(Finish(st, first).st, clocks[0])
    requires Finish(Finish(st, first).st, clocks).full
    requires NoDup(black) && forall x :: x in black <==> x in View(st) && Reachable(View(st), x)
    ensures Finish(Finish(st, first).st, clocks).st.objs.Keys == Members(black)
    ensures |Finish(Finish(st, first).st, clocks).st.objs| == |black|
  {
    var m := Finish(st, first).st;
    ForcedFinish(m, clocks);
    EvolvesReached(st, m);
    BlackReached(View(st), black);
    KeysCard(Finish(m, clocks).st.objs, black);
  }
}

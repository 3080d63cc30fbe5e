/** What survives a collection, compared with the test harness's oracle.

    The collector never frees a reachable object: every phase `Evolves`.
    This module proves the converse for a cycle that runs to the end. If
    every grey or black object is reachable when the call starts, the
    objects left afterwards are exactly the reachable ones. Their number is
    then the survivor count the harness computes, and survivors plus
    finalized objects make up every allocation.

    The hypothesis is needed. The write barrier greys the object written
    to, and gc_add_root greys the object rooted; either may become
    unreachable afterwards, and the mark phase then keeps it, and all it
    refers to, for another cycle. The harness's closing sequence forces a
    promotion of every generation and a refresh of the oldest before its
    last collections. `ForcedMarks` shows that this establishes the
    hypothesis when every grey object is reachable, because the refresh
    re-greys only objects with roots. An object already grey is not
    re-examined, so the closing sequence needs a completed cycle first;
    module `Closing` shows both sides. */
module Survival {
  import opened MarkWord
  import opened Lists
  import opened Reach
  import opened Heap
  import opened Collector

  /** The grey and black objects. */
  function Shades(st: Gc): set<Id> {
    set x | x in st.objs && Shaded(st.objs[x].link)
  }

  /** The grey objects. */
  function Greys(st: Gc): set<Id> {
    set x | x in st.objs && st.objs[x].link == GreyList
  }

  /** The nodes with a root count above zero. */
  function Held(g: Graph): set<Id> {
    set x | x in g && g[x].roots > 0
  }

  /** The reachable nodes. */
  ghost function Reached(g: Graph): set<Id> {
    set x | x in g && Reachable(g, x)
  }

  /** Every object the mark phase has reached is reachable. */
  ghost predicate MarkedReachable(st: Gc) {
    Shades(st) <= Reached(View(st))
  }

  /** Every grey object is reachable. */
  ghost predicate GreysReachable(st: Gc) {
    Greys(st) <= Reached(View(st))
  }

  /** What a round of the generation loop may do: roots and slots stay, no
      object becomes grey or black that was neither, and an object grey
      afterwards was grey before or has roots. */
  predicate Recolours(st: Gc, r: Gc) {
    && View(r) == View(st)
    && Shades(r) <= Shades(st)
    && Greys(r) <= Greys(st) + Held(View(st))
  }

  lemma HeldReached(g: Graph)
    ensures Held(g) <= Reached(g)
  {
    forall x | x in Held(g) ensures x in Reached(g) {
      RootReachable(g, x);
    }
  }

  /** A step that changes only object `x`, keeping every root and slot,
      recolours in that sense if `x` ends up shaded only when it was, and
      grey only when it was or has roots. */
  lemma RecolourStep(st: Gc, r: Gc, x: Id)
    requires Keeps(st, r) && x in st.objs
    requires forall y :: y in st.objs && y != x ==> r.objs[y] == st.objs[y]
    requires Shaded(r.objs[x].link) ==> Shaded(st.objs[x].link)
    requires r.objs[x].link == GreyList ==> st.objs[x].link == GreyList || st.objs[x].mark.roots > 0
    ensures Recolours(st, r)
  {
    SameView(st, r);
    forall y | y in Shades(r) ensures y in Shades(st) {
    }
    forall y | y in Greys(r) ensures y in Greys(st) + Held(View(st)) {
    }
  }

  lemma RecoloursTrans(a: Gc, b: Gc, c: Gc)
    requires Recolours(a, b) && Recolours(b, c)
    ensures Recolours(a, c)
  {
  }

  // ---------------------------------------------------------------------
  // The generation loop.

  /** Promotion moves black objects to another black list. */
  lemma {:induction false} PromoteRecolours(st: Gc, s: Stats, clock: Clock, i: nat)
    requires Inv(st) && i + 1 < st.gens
    ensures Recolours(st, Promote(st, s, clock, i).st)
    decreases Len(st, BlackList(i))
  {
    if st.lists[BlackList(i)] == [] {
    } else {
      HeadLink(st, BlackList(i));
      var x := st.lists[BlackList(i)][0];
      var c := Relink(st, s, clock, x, BlackList(i + 1), st.objs[x].mark.(gen := i + 1), 1);
      RecolourStep(st, c.st, x);
      if !c.paused {
        PromoteRecolours(c.st, c.stats, clock, i);
        RecoloursTrans(st, c.st, Promote(c.st, c.stats, clock, i).st);
      }
    }
  }

  /** The refresh loop turns black objects grey or silver, and grey only
      when they have roots. */
  lemma {:induction false} RefreshRecolours(st: Gc, s: Stats, clock: Clock, i: nat)
    requires Inv(st) && i < st.gens
    ensures Recolours(st, Refresh(st, s, clock, i).st)
    decreases Len(st, BlackList(i))
  {
    if st.lists[BlackList(i)] == [] {
    } else {
      HeadLink(st, BlackList(i));
      var x := st.lists[BlackList(i)][0];
      var c := RefreshOne(st, s, clock, x);
      RecolourStep(st, c.st, x);
      if !c.paused {
        RefreshRecolours(c.st, c.stats, clock, i);
        RecoloursTrans(st, c.st, Refresh(c.st, c.stats, clock, i).st);
      }
    }
  }

  lemma GenerationRecolours(st: Gc, s: Stats, clock: Clock, i: nat)
    requires Inv(st) && i < st.gens
    ensures Recolours(st, Generation(st, s, clock, i).st)
  {
    if i + 1 < st.gens && clock.promoteDue(i) {
      PromoteRecolours(st, s, clock, i);
    } else if clock.refreshDue(i) {
      RefreshRecolours(st, s, clock, i);
    }
  }

  /** The whole generation loop, whichever generations are due. */
  lemma {:induction false} GenerationsRecolours(st: Gc, s: Stats, clock: Clock, i: nat)
    requires Inv(st) && i <= st.gens
    ensures Recolours(st, Generations(st, s, clock, i).st)
    decreases st.gens - i
  {
    if i < st.gens && !Generation(st, s, clock, i).paused {
      var g := Generation(st, s, clock, i);
      GenerationsRecolours(g.st, g.stats, clock, i + 1);
    }
    GenerationsStep(st, s, clock, i);
  }

  /** One round of the generation loop, given the rounds after it. */
  lemma GenerationsStep(st: Gc, s: Stats, clock: Clock, i: nat)
    requires Inv(st) && i <= st.gens
    requires i < st.gens && !Generation(st, s, clock, i).paused ==>
      var g := Generation(st, s, clock, i);
      Recolours(g.st, Generations(g.st, g.stats, clock, i + 1).st)
    ensures Recolours(st, Generations(st, s, clock, i).st)
  {
    var r := Generations(st, s, clock, i).st;
    GenerationsUnfold(st, s, clock, i);
    if i < st.gens {
      var g := Generation(st, s, clock, i);
      GenerationRecolours(st, s, clock, i);
      if g.paused {
        RecoloursSame(st, g.st, r);
      } else {
        RecoloursTrans(st, g.st, Generations(g.st, g.stats, clock, i + 1).st);
        RecoloursSame(st, Generations(g.st, g.stats, clock, i + 1).st, r);
      }
    }
  }

  lemma RecoloursSame(a: Gc, b: Gc, c: Gc)
    requires Recolours(a, b) && b == c
    ensures Recolours(a, c)
  {
  }

  /** One unfolding of the generation loop. */
  lemma GenerationsUnfold(st: Gc, s: Stats, clock: Clock, i: nat)
    requires Inv(st) && i <= st.gens
    ensures i == st.gens ==> Generations(st, s, clock, i).st == st
    ensures i < st.gens && Generation(st, s, clock, i).paused ==>
      Generations(st, s, clock, i).st == Generation(st, s, clock, i).st
    ensures i < st.gens && !Generation(st, s, clock, i).paused ==>
      var g := Generation(st, s, clock, i);
      Generations(st, s, clock, i).st == Generations(g.st, g.stats, clock, i + 1).st
  {
  }

  /** With every black list empty, the grey objects are all the mark phase
      has reached. */
  lemma NoBlack(st: Gc)
    requires WellFormed(st) && forall j :: 0 <= j < st.gens ==> At(st, BlackList(j)) == []
    ensures Shades(st) <= Greys(st)
  {
    forall l: Loc | l.BlackList? && ValidLoc(st.gens, l) ensures At(st, l) == [] {
      assert l == BlackList(l.gen);
    }
    forall y | y in Shades(st) ensures y in Greys(st) {
      assert y in At(st, st.objs[y].link) && ValidLoc(st.gens, st.objs[y].link);
    }
  }

  /** With every generation due and the loop run to the end, no black
      object is left, so every object the mark phase starts from is grey:
      grey before, or holding roots. If every grey object was reachable,
      every shaded object now is. */
  lemma ForcedMarks(st: Gc, s: Stats, clock: Clock)
    requires Inv(st) && GreysReachable(st)
    requires forall j :: 0 <= j < st.gens ==> Due(clock, st.gens, j)
    requires !Generations(st, s, clock, 0).paused
    ensures MarkedReachable(Generations(st, s, clock, 0).st)
  {
    var r := Generations(st, s, clock, 0).st;
    GenerationsRecolours(st, s, clock, 0);
    HeldReached(View(st));
    NoBlack(r);
  }

  // ---------------------------------------------------------------------
  // The mark phase.

  /** Blackening a reachable grey object greys only what it refers to, all
      of which is reachable. */
  lemma MarkBlackMarked(st: Gc, s: Stats, clock: Clock, x: Id)
    requires Inv(st) && LinkIs(st, x, GreyList) && MarkedReachable(st)
    ensures MarkedReachable(Collector.MarkBlack(st, s, clock, x).st)
  {
    var r := Collector.MarkBlack(st, s, clock, x).st;
    SameView(st, r);
    assert x in Shades(st);
    forall y | y in Shades(r) ensures y in Reached(View(st)) {
      if y != x && r.objs[y] != st.objs[y] {
        ReachStep(View(st), x, y);
      } else {
        assert y in Shades(st);
      }
    }
  }

  lemma GreyStepMarked(st: Gc, s: Stats, clock: Clock)
    requires Inv(st) && st.lists[GreyList] != [] && MarkedReachable(st)
    ensures MarkedReachable(GreyStep(st, s, clock).st)
  {
    HeadLink(st, GreyList);
    MarkBlackMarked(st, s, clock, st.lists[GreyList][0]);
  }

  /** The grey loop keeps every shaded object reachable. */
  lemma {:induction false} GreyLoopMarked(st: Gc, s: Stats, clock: Clock)
    requires Inv(st) && MarkedReachable(st)
    ensures MarkedReachable(GreyLoop(st, s, clock).st)
    decreases Len(st, GreyList) + Pending(st), Pending(st)
  {
    if st.lists[GreyList] != [] {
      var c := GreyStep(st, s, clock);
      GreyStepMarked(st, s, clock);
      if !c.paused {
        GreyLoopMarked(c.st, c.stats, clock);
      }
    }
  }

  // ---------------------------------------------------------------------
  // The silver phase.

  lemma WhitenMarked(st: Gc, s: Stats, clock: Clock, x: Id)
    requires Inv(st) && LinkIs(st, x, SilverList) && MarkedReachable(st)
    requires forall y :: InBlack(st, y, 0, st.gens) ==> !Refers(st, y, x)
    ensures MarkedReachable(Whiten(st, s, clock, x).st)
  {
    var r := Whiten(st, s, clock, x).st;
    SameView(st, r);
    forall y | y in Shades(r) ensures y in Shades(st) {
    }
  }

  /** An object referred to by a reached object is reachable. */
  lemma MarkedRefers(st: Gc, y: Id, x: Id)
    requires MarkedReachable(st) && y in Shades(st) && Refers(st, y, x) && x in st.objs
    ensures x in Reached(View(st))
  {
    ReachStep(View(st), y, x);
  }

  lemma RegreyMarked(st: Gc, x: Id, g: nat)
    requires Inv(st) && LinkIs(st, x, SilverList) && g < st.gens
    requires MarkedReachable(st) && x in Reached(View(st))
    ensures MarkedReachable(Regrey(st, x, g))
  {
    var r := Regrey(st, x, g);
    SameView(st, r);
    forall y | y in Shades(r) ensures y in Reached(View(st)) {
      if y != x {
        assert y in Shades(st);
      }
    }
  }

  /** A reachable silver object turns grey, then the grey loop runs. */
  lemma RescueMarked(st: Gc, s: Stats, clock: Clock, x: Id, g: nat)
    requires Inv(st) && LinkIs(st, x, SilverList) && g < st.gens
    requires forall s': Stats :: MarkedReachable(GreyLoop(Regrey(st, x, g), s', clock).st)
    ensures MarkedReachable(Rescue(st, s, clock, x, g).st)
  {
  }

  lemma RegreyLoopMarked(st: Gc, clock: Clock, x: Id, g: nat)
    requires Inv(st) && LinkIs(st, x, SilverList) && g < st.gens
    requires MarkedReachable(st) && x in Reached(View(st))
    ensures forall s': Stats :: MarkedReachable(GreyLoop(Regrey(st, x, g), s', clock).st)
  {
    RegreyMarked(st, x, g);
    forall s': Stats ensures MarkedReachable(GreyLoop(Regrey(st, x, g), s', clock).st) {
      GreyLoopMarked(Regrey(st, x, g), s', clock);
    }
  }

  /** A silver object turns grey only when a black, hence reachable,
      object refers to it. */
  lemma ResolveMarked(st: Gc, clock: Clock, x: Id, p: Probe)
    requires Inv(st) && LinkIs(st, x, SilverList) && MarkedReachable(st)
    requires p.outcome.Found? ==> p.outcome.gen < st.gens && InBlack(st, p.outcome.holder, p.outcome.gen, p.outcome.gen + 1) && Refers(st, p.outcome.holder, x)
    requires p.outcome.Absent? ==> forall y :: InBlack(st, y, 0, st.gens) ==> !Refers(st, y, x)
    ensures MarkedReachable(Resolve(st, clock, x, p).st)
  {
    match p.outcome
    case Stopped =>
    case Absent =>
      WhitenMarked(st, p.stats, clock, x);
    case Found(g, holder) =>
      assert holder in Shades(st);
      MarkedRefers(st, holder, x);
      RegreyLoopMarked(st, clock, x, g);
      RescueMarked(st, p.stats, clock, x, g);
  }

  lemma ResolveSilverMarked(st: Gc, s: Stats, clock: Clock)
    requires Inv(st) && Len(st, SilverList) > 0 && MarkedReachable(st)
    ensures MarkedReachable(ResolveSilver(st, s, clock).st)
  {
    HeadLink(st, SilverList);
    var x := st.lists[SilverList][0];
    ResolveMarked(st, clock, x, SearchGens(st, s, clock, x, st.gens));
  }

  lemma {:induction false} SilverLoopMarked(st: Gc, s: Stats, clock: Clock)
    requires Inv(st) && MarkedReachable(st)
    ensures MarkedReachable(SilverLoop(st, s, clock).st)
    decreases Len(st, SilverList)
  {
    if st.lists[SilverList] != [] {
      var c := ResolveSilver(st, s, clock);
      ResolveSilverMarked(st, s, clock);
      if !c.paused {
        SilverLoopMarked(c.st, c.stats, clock);
      }
    }
  }

  // ---------------------------------------------------------------------
  // Sweep, cleanup and the driver.

  lemma SweepPhaseMarked(st: Gc, s: Stats, clock: Clock)
    requires Inv(st) && At(st, GreyList) == [] && At(st, SilverList) == [] && MarkedReachable(st)
    ensures MarkedReachable(SweepPhase(st, s, clock).st)
  {
    SweepPhaseLinks(st, s, clock);
    KeepsMarked(st);
  }

  /** A step that keeps roots and slots and moves objects only to the
      transparent list keeps every shaded object reachable. */
  lemma KeepsMarked(st: Gc)
    requires MarkedReachable(st)
    ensures forall r :: Keeps(st, r) && (forall y :: y in r.objs ==> LinkIs(r, y, TransparentList) || r.objs[y].link == st.objs[y].link) ==> MarkedReachable(r)
  {
    forall r | Keeps(st, r) && (forall y :: y in r.objs ==> LinkIs(r, y, TransparentList) || r.objs[y].link == st.objs[y].link)
      ensures MarkedReachable(r)
    {
      SameView(st, r);
      assert Shades(r) <= Shades(st);
    }
  }

  /** The transparent cleanup frees only unreachable objects and recolours
      none. */
  lemma CleanupMarked(st: Gc, s: Stats, clock: Clock)
    requires Inv(st)
    ensures MarkedReachable(st) ==> MarkedReachable(Cleanup(st, s, clock).st)
    ensures GreysReachable(st) ==> GreysReachable(Cleanup(st, s, clock).st)
  {
    var r := Cleanup(st, s, clock).st;
    EvolvesReach(st, r);
    forall y | y in r.objs && y in Reached(View(st)) ensures y in Reached(View(r)) {
    }
    assert Shades(r) <= Shades(st) && Greys(r) <= Greys(st);
  }

  lemma SweepOnwardMarked(st: Gc, s: Stats, clock: Clock)
    requires Inv(st) && At(st, GreyList) == [] && At(st, SilverList) == [] && !s.full && MarkedReachable(st)
    ensures MarkedReachable(SweepOnward(st, s, clock).st)
  {
    var e := SweepPhase(st, s, clock);
    SweepPhaseMarked(st, s, clock);
    if !e.paused {
      assert At(e.st, GreyList) == [] && At(e.st, SilverList) == [];
      assert SweepOnward(st, s, clock).st == Cleanup(e.st, e.stats, clock).st;
      CleanupMarked(e.st, e.stats, clock);
    }
  }

  lemma SilverOnwardMarked(st: Gc, s: Stats, clock: Clock)
    requires Inv(st) && At(st, GreyList) == [] && !s.full && MarkedReachable(st)
    ensures MarkedReachable(SilverOnward(st, s, clock).st)
  {
    var d := SilverLoop(st, s, clock);
    SilverLoopMarked(st, s, clock);
    if !d.paused {
      SweepOnwardMarked(d.st, d.stats, clock);
    }
  }

  lemma MarkOnwardMarked(st: Gc, s: Stats, clock: Clock)
    requires Inv(st) && !s.full && MarkedReachable(st)
    ensures MarkedReachable(MarkOnward(st, s, clock).st)
  {
    var c := GreyLoop(st, s, clock);
    GreyLoopMarked(st, s, clock);
    if !c.paused {
      SilverOnwardMarked(c.st, c.stats, clock);
    }
  }

  lemma GenerationsOnwardMarked(st: Gc, s: Stats, clock: Clock)
    requires Inv(st) && !s.full && MarkedReachable(st)
    ensures MarkedReachable(GenerationsOnward(st, s, clock).st)
  {
    var b := Generations(st, s, clock, 0);
    GenerationsRecolours(st, s, clock, 0);
    if !b.paused {
      MarkOnwardMarked(b.st, b.stats, clock);
    }
  }

  /** A gc() call, paused or not, keeps every grey or black object
      reachable if that held when it started. */
  lemma CollectMarked(st: Gc, clock: Clock)
    requires Inv(st) && MarkedReachable(st)
    ensures MarkedReachable(Collect(st, clock).st)
  {
    var a := Cleanup(st, Stats(0, 0, 0, false, 0), clock);
    CleanupMarked(st, Stats(0, 0, 0, false, 0), clock);
    if !a.paused {
      GenerationsOnwardMarked(a.st, a.stats, clock);
    }
  }

  /** The harness's forced collection: with every generation due, and the
      cleanup and the generation loop not paused, a gc() call that starts
      with every grey object reachable ends with every grey or black object
      reachable, whether or not it pauses later. */
  lemma ForcedCollect(st: Gc, clock: Clock)
    requires Inv(st) && GreysReachable(st)
    requires forall j :: 0 <= j < st.gens ==> Due(clock, st.gens, j)
    requires !Cleanup(st, Stats(0, 0, 0, false, 0), clock).paused
    requires var a := Cleanup(st, Stats(0, 0, 0, false, 0), clock);
             !Generations(a.st, a.stats, clock, 0).paused
    ensures MarkedReachable(Collect(st, clock).st)
  {
    var a := Cleanup(st, Stats(0, 0, 0, false, 0), clock);
    CleanupMarked(st, Stats(0, 0, 0, false, 0), clock);
    var b := Generations(a.st, a.stats, clock, 0);
    ForcedMarks(a.st, a.stats, clock);
    MarkOnwardMarked(b.st, b.stats, clock);
  }

  /** A gc() call that runs to the end, started with every grey or black
      object reachable, keeps exactly the reachable objects. */
  lemma CollectComplete(st: Gc, clock: Clock)
    requires Inv(st) && MarkedReachable(st) && !Collect(st, clock).paused
    ensures Collect(st, clock).st.objs.Keys == Reached(View(st))
  {
    var r := Collect(st, clock).st;
    CollectMarked(st, clock);
    assert Shades(r) == r.objs.Keys;
    ExactlyReached(st, r);
  }

  /** A state that evolved from `st` and whose objects are all shaded and
      reachable holds exactly the objects reachable in `st`. */
  lemma ExactlyReached(st: Gc, r: Gc)
    requires Evolves(st, r) && Shades(r) == r.objs.Keys && MarkedReachable(r)
    ensures r.objs.Keys == Reached(View(st))
  {
    EvolvesReach(st, r);
  }

  /** The test program's check: the number of survivors of such a call
      equals the size of the oracle's black set over the same graph, and
      survivors plus finalized objects make up every allocation. */
  lemma SurvivorCount(st: Gc, clock: Clock, black: seq<Id>)
    requires Inv(st) && MarkedReachable(st) && !Collect(st, clock).paused
    requires NoDup(black) && forall x :: x in black <==> x in View(st) && Reachable(View(st), x)
    ensures |Collect(st, clock).st.objs| == |black|
    ensures |Collect(st, clock).st.objs| + |Collect(st, clock).st.finalized| == st.nextId
  {
    CollectComplete(st, clock);
    BlackReached(View(st), black);
    KeysCard(Collect(st, clock).st.objs, black);
  }

  /** The oracle's black list, as a set, is the reachable set. */
  lemma BlackReached(g: Graph, black: seq<Id>)
    requires forall x :: x in black <==> x in g && Reachable(g, x)
    ensures Members(black) == Reached(g)
  {
  }

  /** A map whose keys are exactly the elements of a list without
      duplicates has as many entries as the list. */
  lemma KeysCard(m: map<Id, Object>, black: seq<Id>)
    requires NoDup(black) && m.Keys == Members(black)
    ensures |m| == |black|
  {
    NoDupCard(black);
  }
}

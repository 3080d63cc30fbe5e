/** The collection driver gc() and its default object callbacks.

    One call runs the phases in order: transparent cleanup, promotion and
    refresh of each generation, the grey mark fixpoint, silver resolution,
    sweep, and a second transparent cleanup. Work is counted in
    cycle_threshold; whenever that count reaches the pause threshold, the
    call asks the clock whether max_pause has elapsed and, if so, returns at
    once. The lists persist, so the next call picks up the work. Every phase
    is a function returning the new state and whether the call paused.

    Time is not modelled. A `Clock` answers the questions the source asks of
    the clock during one call: whether generation `i` is due for promotion or
    for refresh, and whether the k-th pause comparison finds max_pause
    elapsed. */
module Collector {
  import opened MarkWord
  import opened Lists
  import opened Reach
  import opened Heap

  datatype Clock = Clock(promoteDue: nat -> bool, refreshDue: nat -> bool, elapsed: nat -> bool)

  /** The per-cycle counters of gc_config (cycle_threshold, cycle_objects,
      cycle_collected, cycle_full), and how many pause-time comparisons the
      current call has made. */
  datatype Stats = Stats(threshold: nat, objects: nat, collected: nat, full: bool, queries: nat)

  /** A phase's outcome: the heap, the counters, and whether gc() returned
      early. */
  datatype Run = Run(st: Gc, stats: Stats, paused: bool)

  /** gc_cycle_check (and its no-return twin): once the work count reaches
      the pause threshold, either pause, or bank the count and start over.
      The heap is not touched. */
  function Check(st: Gc, s: Stats, clock: Clock): (r: Run)
    ensures r.st == st && r.stats.collected == s.collected && r.stats.full == s.full
    ensures r.paused <==> s.threshold >= st.pauseThreshold && clock.elapsed(s.queries)
    ensures r.stats.objects + r.stats.threshold == s.objects + s.threshold
    ensures s.threshold >= st.pauseThreshold && !r.paused ==> r.stats.threshold == 0
    ensures s.threshold < st.pauseThreshold ==> r.stats == s
  {
    if s.threshold < st.pauseThreshold then Run(st, s, false)
    else if clock.elapsed(s.queries) then Run(st, s.(queries := s.queries + 1), true)
    else Run(st, s.(objects := s.objects + s.threshold, threshold := 0, queries := s.queries + 1), false)
  }

  /** gc_cycle_end: the remaining work count is banked. */
  function End(s: Stats): (r: Stats)
    ensures r.objects == s.objects + s.threshold
    ensures r.collected == s.collected && r.full == s.full
  {
    s.(objects := s.objects + s.threshold)
  }

  /** The step every phase repeats: gc_list_move of `x` to `to` with its
      new mark, `w` units of work, and the pause check. */
  function Relink(st: Gc, s: Stats, clock: Clock, x: Id, to: Loc, m: Mark, w: nat): (r: Run)
    requires Inv(st) && Live(st, x) && ValidLoc(st.gens, to) && to != TransparentList && st.objs[x].link != to
    requires Agrees(Object(to, m, st.objs[x].slots), st.gens) && m.roots == st.objs[x].mark.roots
    requires to.BlackList? ==> forall t :: Ptr(t) in st.objs[x].slots && t != x ==> !LinkIs(st, t, WhiteList)
    requires to == WhiteList ==> forall y :: y in st.objs && y != x && st.objs[y].link.BlackList? ==> Ptr(x) !in st.objs[y].slots
    ensures Inv(r.st) && Keeps(st, r.st)
    ensures r.stats.collected == s.collected && r.stats.full == s.full
    ensures r.st.objs[x] == Object(to, m, st.objs[x].slots)
    ensures forall y :: y in st.objs && y != x ==> r.st.objs[y] == st.objs[y]
    ensures r.st.lists[to] == [x] + st.lists[to]
    ensures forall y :: y in r.st.lists[st.objs[x].link] <==> y in st.lists[st.objs[x].link] && y != x
    ensures |r.st.lists[st.objs[x].link]| == |st.lists[st.objs[x].link]| - 1
    ensures forall l :: l != to && l != st.objs[x].link ==> At(r.st, l) == At(st, l)
  {
    MoveInv(st, x, to, m);
    MoveLists(st, x, to, m);
    Check(Move(st, x, to, m), s.(threshold := s.threshold + w), clock)
  }

  // ---------------------------------------------------------------------
  // Transparent cleanup (before and after the cycle).

  /** Finalizes and frees transparent objects from the head until the list
      is empty or the call pauses; each costs 11 units of work and counts as
      collected. Nothing else changes. */
  function Cleanup(st: Gc, s: Stats, clock: Clock): (r: Run)
    requires Inv(st)
    ensures Inv(r.st) && Evolves(st, r.st) && r.st.lists.Keys == st.lists.Keys
    ensures forall x :: x in r.st.objs ==> r.st.objs[x] == st.objs[x]
    ensures forall l :: l != TransparentList ==> At(r.st, l) == At(st, l)
    ensures r.stats.collected == s.collected + (|r.st.finalized| - |st.finalized|) && r.stats.full == s.full
    ensures |r.st.objs| + |r.st.finalized| == |st.objs| + |st.finalized|
    ensures !r.paused ==> r.st.lists[TransparentList] == []
    decreases Len(st, TransparentList)
  {
    if st.lists[TransparentList] == [] then
      EvolvesRefl(st);
      Run(st, s, false)
    else
      FreeInv(st);
      var st1 := Free(st);
      var c := Check(st1, s.(threshold := s.threshold + 11, collected := s.collected + 1), clock);
      if c.paused then c
      else
        var r := Cleanup(st1, c.stats, clock);
        EvolvesTrans(st, st1, r.st);
        r
  }

  // ---------------------------------------------------------------------
  // Promotion and refresh.

  /** The promotion loop of generation `i`: every object of black[i], head
      first, gets generation i + 1 and moves to the head of black[i + 1]. */
  function Promote(st: Gc, s: Stats, clock: Clock, i: nat): (r: Run)
    requires Inv(st) && i + 1 < st.gens
    ensures Inv(r.st) && Keeps(st, r.st)
    ensures r.stats.collected == s.collected && r.stats.full == s.full
    ensures forall l :: l != BlackList(i) && l != BlackList(i + 1) ==> At(r.st, l) == At(st, l)
    ensures forall y :: y in r.st.lists[BlackList(i)] ==> y in st.lists[BlackList(i)]
    ensures forall y :: y in st.lists[BlackList(i)] || y in st.lists[BlackList(i + 1)] <==>
                        y in r.st.lists[BlackList(i)] || y in r.st.lists[BlackList(i + 1)]
    ensures !r.paused ==> r.st.lists[BlackList(i)] == []
    decreases Len(st, BlackList(i))
  {
    if st.lists[BlackList(i)] == [] then
      Run(st, s, false)
    else
      HeadLink(st, BlackList(i));
      var x := st.lists[BlackList(i)][0];
      var c := Relink(st, s, clock, x, BlackList(i + 1), st.objs[x].mark.(gen := i + 1), 1);
      if c.paused then c
      else
        var r := Promote(c.st, c.stats, clock, i);
        r
  }

  /** The refresh loop of generation `i`: every object of black[i], head
      first, goes back to grey if it has roots and to silver otherwise. */
  function Refresh(st: Gc, s: Stats, clock: Clock, i: nat): (r: Run)
    requires Inv(st) && i < st.gens
    ensures Inv(r.st) && Keeps(st, r.st)
    ensures r.stats.collected == s.collected && r.stats.full == s.full
    ensures forall l :: l != BlackList(i) && l != GreyList && l != SilverList ==> At(r.st, l) == At(st, l)
    ensures forall y :: y in r.st.lists[BlackList(i)] ==> y in st.lists[BlackList(i)]
    ensures !r.paused ==> r.st.lists[BlackList(i)] == []
    decreases Len(st, BlackList(i))
  {
    if st.lists[BlackList(i)] == [] then
      Run(st, s, false)
    else
      HeadLink(st, BlackList(i));
      var x := st.lists[BlackList(i)][0];
      var c := RefreshOne(st, s, clock, x);
      if c.paused then c
      else
        var r := Refresh(c.st, c.stats, clock, i);
        r
  }

  /** One refresh: a black object with roots turns grey, one without turns
      silver. */
  function RefreshOne(st: Gc, s: Stats, clock: Clock, x: Id): (r: Run)
    requires Inv(st) && x in st.objs && st.objs[x].link.BlackList?
    ensures Inv(r.st) && Keeps(st, r.st)
    ensures r.stats.collected == s.collected && r.stats.full == s.full
    ensures r.st.objs[x].link == (if st.objs[x].mark.roots > 0 then GreyList else SilverList)
    ensures forall y :: y in st.objs && y != x ==> r.st.objs[y] == st.objs[y]
    ensures forall y :: y in r.st.lists[st.objs[x].link] <==> y in st.lists[st.objs[x].link] && y != x
    ensures |r.st.lists[st.objs[x].link]| == |st.lists[st.objs[x].link]| - 1
    ensures forall l :: l != st.objs[x].link && l != GreyList && l != SilverList ==> At(r.st, l) == At(st, l)
  {
    var o := st.objs[x];
    if o.mark.roots > 0 then Relink(st, s, clock, x, GreyList, o.mark.(color := Grey), 1)
    else Relink(st, s, clock, x, SilverList, o.mark.(color := Silver), 1)
  }

  /** Generation `i` is due for work that leaves its black list empty: a
      refresh, or a promotion when it is not the oldest. */
  predicate Due(clock: Clock, gens: nat, i: nat) {
    clock.refreshDue(i) || (i + 1 < gens && clock.promoteDue(i))
  }

  /** One round of the generation loop. Unless it is the oldest, generation
      `i` is promoted when due; otherwise, when due for refresh, its black
      list is refreshed. An empty black list is left alone either way. The
      source also reaches its refresh loop after a promotion that completed,
      but starts it from the object the promotion loop ended on, which is
      then null, so that loop does nothing. */
  function Generation(st: Gc, s: Stats, clock: Clock, i: nat): (r: Run)
    requires Inv(st) && i < st.gens
    ensures Inv(r.st) && Keeps(st, r.st)
    ensures r.stats.collected == s.collected && r.stats.full == s.full
    ensures !r.paused && Due(clock, st.gens, i) ==> At(r.st, BlackList(i)) == []
  {
    if i + 1 < st.gens && clock.promoteDue(i) then
      Promote(st, s, clock, i)
    else if clock.refreshDue(i) then
      Refresh(st, s, clock, i)
    else
      Run(st, s, false)
  }

  /** A round of the generation loop leaves the black lists of younger
      generations alone. */
  lemma GenerationKeeps(st: Gc, s: Stats, clock: Clock, i: nat)
    requires Inv(st) && i < st.gens
    ensures forall j :: 0 <= j < i ==> At(Generation(st, s, clock, i).st, BlackList(j)) == At(st, BlackList(j))
  {
    var r := Generation(st, s, clock, i).st;
    if i + 1 < st.gens && clock.promoteDue(i) {
      assert r == Promote(st, s, clock, i).st;
    } else if clock.refreshDue(i) {
      assert r == Refresh(st, s, clock, i).st;
    } else {
      assert r == st;
    }
    forall j | 0 <= j < i ensures At(r, BlackList(j)) == At(st, BlackList(j)) {
      assert BlackList(j) != BlackList(i) && BlackList(j) != BlackList(i + 1);
    }
  }

  /** The generation loop, from generation `i` up to the oldest. Black
      lists of generations below `i` are left alone. */
  function Generations(st: Gc, s: Stats, clock: Clock, i: nat): (r: Run)
    requires Inv(st) && i <= st.gens
    ensures Inv(r.st) && Keeps(st, r.st)
    ensures r.stats.collected == s.collected && r.stats.full == s.full
    ensures forall j :: 0 <= j < i ==> At(r.st, BlackList(j)) == At(st, BlackList(j))
    ensures !r.paused && (forall j :: i <= j < st.gens ==> Due(clock, st.gens, j)) ==>
              forall j :: i <= j < st.gens ==> At(r.st, BlackList(j)) == []
    decreases st.gens - i
  {
    if i == st.gens then
      Run(st, s, false)
    else
      var g := Generation(st, s, clock, i);
      GenerationKeeps(st, s, clock, i);
      if g.paused then g
      else
        var r := Generations(g.st, g.stats, clock, i + 1);
        StaysClear(g.st, r.st, i, st.gens, !r.paused && forall j :: i <= j < st.gens ==> Due(clock, st.gens, j));
        r
  }

  /** The step of the generation loop's induction: a list emptied by round
      `i` and kept by the later rounds is still empty at the end. */
  lemma StaysClear(a: Gc, b: Gc, i: nat, n: nat, c: bool)
    requires c ==> At(a, BlackList(i)) == []
    requires forall j :: 0 <= j < i + 1 ==> At(b, BlackList(j)) == At(a, BlackList(j))
    requires c ==> forall j :: i + 1 <= j < n ==> At(b, BlackList(j)) == []
    ensures c ==> forall j :: i <= j < n ==> At(b, BlackList(j)) == []
  {
  }


  // ---------------------------------------------------------------------
  // The mark phase: gc_object_mark_black and the grey loop.

  /** How many objects the mark phase may still turn grey. */
  function Pending(st: Gc): nat {
    Len(st, WhiteList) + Len(st, SilverList)
  }

  /** A move out of the white or silver list into grey lowers the count of
      pale objects by one. */
  lemma PendingDrops(st: Gc, r: Gc, from: Loc)
    requires from == WhiteList || from == SilverList
    requires from in st.lists && from in r.lists && |r.lists[from]| == |st.lists[from]| - 1
    requires forall l :: l != GreyList && l != from ==> At(r, l) == At(st, l)
    ensures Pending(r) + 1 == Pending(st)
  {
    if from == WhiteList {
      assert At(r, SilverList) == At(st, SilverList);
    } else {
      assert At(r, WhiteList) == At(st, WhiteList);
    }
  }

  /** Every object the slots name is live. */
  ghost predicate LiveRefs(st: Gc, refs: seq<Ref>) {
    forall t :: Ptr(t) in refs ==> Live(st, t)
  }

  /** One round of the slot loop of gc_object_mark_black: a referent whose
      colour is white or silver is moved to grey and counts one unit of
      work, after which the pause check may end the call early. */
  function MarkRef(st: Gc, s: Stats, clock: Clock, ref: Ref): (r: Run)
    requires Inv(st) && (ref.Ptr? ==> Live(st, ref.id))
    ensures Inv(r.st) && Keeps(st, r.st)
    ensures r.stats.collected == s.collected && r.stats.full == s.full
    ensures forall y :: y in st.objs ==> r.st.objs[y] == st.objs[y] ||
                                         (Pale(st, y) && ref == Ptr(y) && r.st.objs[y].link == GreyList)
    ensures Len(r.st, GreyList) + Pending(r.st) == Len(st, GreyList) + Pending(st)
    ensures (Pending(r.st) == Pending(st) && !r.paused) || Pending(r.st) + 1 == Pending(st)
    ensures ref.Ptr? ==> !Pale(r.st, ref.id)
    ensures Len(r.st, SilverList) <= Len(st, SilverList)
  {
    if ref.Null? then
      Run(st, s, false)
    else
      var o := st.objs[ref.id];
      assert Agrees(o, st.gens);
      if o.mark.color == White || o.mark.color == Silver then
        assert o.link == WhiteList || o.link == SilverList;
        var c := Relink(st, s, clock, ref.id, GreyList, o.mark.(color := Grey), 1);
        PendingDrops(st, c.st, o.link);
        c
      else
          Run(st, s, false)
  }

  /** The slot loop of gc_object_mark_black over the slots `refs` not yet
      visited. Unless the call ends early, no referent is left white or
      silver; only referents change, each from white or silver to grey. */
  function MarkRefs(st: Gc, s: Stats, clock: Clock, refs: seq<Ref>): (r: Run)
    requires Inv(st) && LiveRefs(st, refs)
    ensures Inv(r.st) && Keeps(st, r.st)
    ensures r.stats.collected == s.collected && r.stats.full == s.full
    ensures forall y :: y in st.objs ==> r.st.objs[y] == st.objs[y] ||
                                         (Pale(st, y) && Ptr(y) in refs && r.st.objs[y].link == GreyList)
    ensures Len(r.st, GreyList) + Pending(r.st) == Len(st, GreyList) + Pending(st)
    ensures Pending(r.st) <= Pending(st) && (r.paused ==> Pending(r.st) < Pending(st))
    ensures !r.paused ==> forall t :: Ptr(t) in refs ==> !Pale(r.st, t)
    ensures Len(r.st, SilverList) <= Len(st, SilverList)
    decreases |refs|
  {
    if refs == [] then
      Run(st, s, false)
    else
      assert refs[0] in refs;
      var c := MarkRef(st, s, clock, refs[0]);
      if c.paused then c
      else
        assert LiveRefs(c.st, refs[1..]) by {
          forall t | Ptr(t) in refs[1..] ensures Live(c.st, t) {
            assert Ptr(t) in refs;
          }
        }
        assert forall t :: Ptr(t) in refs[1..] ==> Ptr(t) in refs;
        var r := MarkRefs(c.st, c.stats, clock, refs[1..]);
        assert refs[0].Ptr? ==> refs[0].id in c.st.objs;
        r
  }

  /** gc_object_mark_black on a grey object `x`: its referents are visited
      in slot order, and unless that loop ends early `x` becomes black and
      moves to the black list of its own generation. An early end leaves
      `x` grey and returns from this call only; `paused` reports it. */
  function MarkBlack(st: Gc, s: Stats, clock: Clock, x: Id): (r: Run)
    requires Inv(st) && LinkIs(st, x, GreyList)
    ensures Inv(r.st) && Keeps(st, r.st)
    ensures r.stats.collected == s.collected && r.stats.full == s.full
    ensures forall y :: y in st.objs && y != x ==>
              r.st.objs[y] == st.objs[y] || (Pale(st, y) && Ptr(y) in st.objs[x].slots && r.st.objs[y].link == GreyList)
    ensures r.st.objs[x].link == if r.paused then GreyList else BlackList(st.objs[x].mark.gen)
    ensures !r.paused ==> forall t :: Ptr(t) in st.objs[x].slots ==> !Pale(r.st, t)
    ensures Len(r.st, GreyList) + Pending(r.st) < Len(st, GreyList) + Pending(st) ||
            (Len(r.st, GreyList) + Pending(r.st) == Len(st, GreyList) + Pending(st) && Pending(r.st) < Pending(st))
    ensures Len(r.st, SilverList) <= Len(st, SilverList)
    ensures forall t :: Pale(r.st, t) ==> Pale(st, t)
  {
    var o := st.objs[x];
    assert LiveRefs(st, o.slots) by {
      forall t | Ptr(t) in o.slots ensures Live(st, t) {
        assert Live(st, x);
      }
    }
    var m := MarkRefs(st, s, clock, o.slots);
    if m.paused then m
    else
      assert m.st.objs[x] == o;
      Run(Blacken(m.st, x), m.stats, false)
  }

  /** The last step of gc_object_mark_black: a grey object none of whose
      referents is white or silver becomes black, at the head of the black
      list of its generation. */
  function Blacken(st: Gc, x: Id): (r: Gc)
    requires Inv(st) && LinkIs(st, x, GreyList)
    requires forall t :: Ptr(t) in st.objs[x].slots ==> !Pale(st, t)
    ensures Inv(r) && Keeps(st, r)
    ensures r.objs[x].link == BlackList(st.objs[x].mark.gen)
    ensures forall y :: y in st.objs && y != x ==> r.objs[y] == st.objs[y]
    ensures forall t :: Pale(r, t) ==> Pale(st, t)
    ensures Len(r, GreyList) + 1 == Len(st, GreyList)
    ensures Pending(r) == Pending(st) && Len(r, SilverList) == Len(st, SilverList)
  {
    var o := st.objs[x];
    assert Agrees(o, st.gens);
    var b := BlackList(o.mark.gen);
    assert forall t :: Ptr(t) in o.slots && t != x ==> !Pale(st, t) && !LinkIs(st, t, WhiteList);
    MoveInv(st, x, b, o.mark.(color := Black));
    MoveLists(st, x, b, o.mark.(color := Black));
    MoveNotPale(st, x, b, o.mark.(color := Black));
    var r := Move(st, x, b, o.mark.(color := Black));
    GreyDrops(st, r);
    r
  }

  /** The count step of gc_mark_black's final move: one object fewer is
      grey, and the white and silver lists are untouched. */
  lemma GreyDrops(st: Gc, r: Gc)
    requires GreyList in st.lists && GreyList in r.lists && |r.lists[GreyList]| == |st.lists[GreyList]| - 1
    requires forall l :: l != GreyList && !l.BlackList? ==> At(r, l) == At(st, l)
    ensures Len(r, GreyList) + 1 == Len(st, GreyList)
    ensures Pending(r) == Pending(st) && Len(r, SilverList) == Len(st, SilverList)
  {
    assert At(r, WhiteList) == At(st, WhiteList) && At(r, SilverList) == At(st, SilverList);
  }

  /** One round of the grey loop: gc_mark_black on the head of the grey
      list, one unit of work and a pause check. */
  function GreyStep(st: Gc, s: Stats, clock: Clock): (r: Run)
    requires Inv(st) && st.lists[GreyList] != []
    ensures Inv(r.st) && Keeps(st, r.st)
    ensures r.stats.collected == s.collected && r.stats.full == s.full
    ensures Len(r.st, GreyList) + Pending(r.st) < Len(st, GreyList) + Pending(st) ||
            (Len(r.st, GreyList) + Pending(r.st) == Len(st, GreyList) + Pending(st) && Pending(r.st) < Pending(st))
    ensures Len(r.st, SilverList) <= Len(st, SilverList)
    ensures forall t :: Pale(r.st, t) ==> Pale(st, t)
  {
    HeadLink(st, GreyList);
    var m := MarkBlack(st, s, clock, st.lists[GreyList][0]);
    var c := Check(m.st, m.stats.(threshold := m.stats.threshold + 1), clock);
    assert c.st == m.st;
    c
  }

  /** The grey loop of the mark phase: rounds until the grey list is
      empty. */
  function GreyLoop(st: Gc, s: Stats, clock: Clock): (r: Run)
    requires Inv(st)
    ensures Inv(r.st) && Keeps(st, r.st)
    ensures r.stats.collected == s.collected && r.stats.full == s.full
    ensures !r.paused ==> At(r.st, GreyList) == []
    ensures Len(r.st, SilverList) <= Len(st, SilverList)
    ensures forall t :: Pale(r.st, t) ==> Pale(st, t)
    decreases Len(st, GreyList) + Pending(st), Pending(st)
  {
    if st.lists[GreyList] == [] then Run(st, s, false)
    else
      var c := GreyStep(st, s, clock);
      if c.paused then c
      else GreyLoop(c.st, c.stats, clock)
  }

  // ---------------------------------------------------------------------
  // The silver phase: looking for a black referrer.

  /** gc_object_contains: whether an object's slots hold a reference to `t`.
      The source compares every slot with the target in index order. */
  method ContainsRef(slots: seq<Ref>, t: Id) returns (found: bool)
    ensures found <==> Ptr(t) in slots
  {
    var i := 0;
    while i < |slots|
      invariant i <= |slots|
      invariant forall k :: 0 <= k < i ==> slots[k] != Ptr(t)
    {
      if slots[i] == Ptr(t) {
        return true;
      }
      i := i + 1;
    }
    return false;
  }

  /** Object `y` holds a reference to `t`. */
  predicate Refers(st: Gc, y: Id, t: Id) {
    y in st.objs && Ptr(t) in st.objs[y].slots
  }

  /** Object `y` is black, of a generation in [lo, hi). */
  predicate InBlack(st: Gc, y: Id, lo: nat, hi: nat) {
    y in st.objs && st.objs[y].link.BlackList? && lo <= st.objs[y].link.gen < hi
  }

  /** How a search for a black referrer ended: at the referrer `holder` in the
      black list of generation `gen`, with no referrer at all, or with the
      call paused. */
  datatype Outcome = Found(gen: nat, holder: Id) | Absent | Stopped

  datatype Probe = Probe(stats: Stats, outcome: Outcome)

  /** The inner search loop over the black list `ys` of generation `i`,
      from its head: each probe is one gc_object_contains call, whose
      answer `ContainsRef` computes as `Ptr(t) in slots`, and one unit of
      work; a miss is followed by a pause check. The heap is not touched. */
  function SearchList(st: Gc, s: Stats, clock: Clock, ys: seq<Id>, t: Id, i: nat): (p: Probe)
    requires forall y :: y in ys ==> y in st.objs
    ensures p.stats.collected == s.collected && p.stats.full == s.full
    ensures p.outcome.Found? ==> p.outcome.gen == i && p.outcome.holder in ys && Refers(st, p.outcome.holder, t)
    ensures p.outcome.Absent? ==> forall y :: y in ys ==> !Refers(st, y, t)
    decreases |ys|
  {
    if ys == [] then Probe(s, Absent)
    else
      var s' := s.(threshold := s.threshold + 1);
      if Ptr(t) in st.objs[ys[0]].slots then Probe(s', Found(i, ys[0]))
      else
        var c := Check(st, s', clock);
        if c.paused then Probe(c.stats, Stopped)
        else
          var p := SearchList(st, c.stats, clock, ys[1..], t, i);
          assert forall y :: y in ys ==> y == ys[0] || y in ys[1..];
          p
  }

  /** The outer search loop over the black lists of the `n` youngest
      generations, from generation `n - 1` down to generation 0. A referrer
      is looked for in the oldest generation first, so a hit names the
      oldest generation holding one. */
  function SearchGens(st: Gc, s: Stats, clock: Clock, t: Id, n: nat): (p: Probe)
    requires Inv(st) && 0 < n <= st.gens
    ensures p.stats.collected == s.collected && p.stats.full == s.full
    ensures p.outcome.Found? ==> p.outcome.gen < n && InBlack(st, p.outcome.holder, p.outcome.gen, p.outcome.gen + 1) && Refers(st, p.outcome.holder, t)
    ensures p.outcome.Found? ==> forall y :: InBlack(st, y, p.outcome.gen + 1, n) ==> !Refers(st, y, t)
    ensures p.outcome.Absent? ==> forall y :: InBlack(st, y, 0, n) ==> !Refers(st, y, t)
    decreases n
  {
    var i := n - 1;
    var ys := st.lists[BlackList(i)];
    assert forall y :: y in ys ==> LinkIs(st, y, BlackList(i));
    var p := SearchList(st, s, clock, ys, t, i);
    if p.outcome.Absent? && i > 0 then
      var q := SearchGens(st, p.stats, clock, t, i);
      assert forall y :: LinkIs(st, y, BlackList(i)) ==> y in ys;
      q
    else
      assert forall y :: LinkIs(st, y, BlackList(i)) ==> y in ys;
      p
  }

  /** One round of the silver loop, on the head `x` of the silver list. If
      some black object refers to `x`, it takes the generation of the oldest
      such object, turns grey, costs one unit of work, and the grey loop runs
      again; otherwise it turns white and costs one unit. A pause check
      follows either way. */
  function ResolveSilver(st: Gc, s: Stats, clock: Clock): (r: Run)
    requires Inv(st) && Len(st, SilverList) > 0
    ensures Inv(r.st) && Keeps(st, r.st)
    ensures r.stats.collected == s.collected && r.stats.full == s.full
    ensures !r.paused ==> Len(r.st, SilverList) < Len(st, SilverList)
    ensures !r.paused && At(st, GreyList) == [] ==> At(r.st, GreyList) == []
    ensures !r.paused ==> (LinkIs(r.st, st.lists[SilverList][0], WhiteList) <==>
                           forall y :: InBlack(st, y, 0, st.gens) ==> !Refers(st, y, st.lists[SilverList][0]))
  {
    HeadLink(st, SilverList);
    var x := st.lists[SilverList][0];
    var p := SearchGens(st, s, clock, x, st.gens);
    assert p.outcome.Found? ==> InBlack(st, p.outcome.holder, 0, st.gens);
    Resolve(st, clock, x, p)
  }

  /** What the silver loop does with the outcome `p` of the search for a
      black referrer of the silver object `x`: a paused search ends the
      call, no referrer turns `x` white, a referrer rescues it. */
  function Resolve(st: Gc, clock: Clock, x: Id, p: Probe): (r: Run)
    requires Inv(st) && LinkIs(st, x, SilverList)
    requires p.outcome.Found? ==> p.outcome.gen < st.gens && InBlack(st, p.outcome.holder, p.outcome.gen, p.outcome.gen + 1) && Refers(st, p.outcome.holder, x)
    requires p.outcome.Absent? ==> forall y :: InBlack(st, y, 0, st.gens) ==> !Refers(st, y, x)
    ensures Inv(r.st) && Keeps(st, r.st)
    ensures r.stats.collected == p.stats.collected && r.stats.full == p.stats.full
    ensures !r.paused ==> Len(r.st, SilverList) < Len(st, SilverList)
    ensures !r.paused && At(st, GreyList) == [] ==> At(r.st, GreyList) == []
    ensures p.outcome.Stopped? ==> r.paused
    ensures !r.paused ==> (LinkIs(r.st, x, WhiteList) <==> p.outcome.Absent?)
  {
    match p.outcome
    case Stopped => Run(st, p.stats, true)
    case Absent => Whiten(st, p.stats, clock, x)
    case Found(g, holder) => Rescue(st, p.stats, clock, x, g)
  }

  /** The other branch of the silver loop: a silver object no black object
      refers to turns white at a cost of one unit, and a pause check
      follows. */
  function Whiten(st: Gc, s: Stats, clock: Clock, x: Id): (r: Run)
    requires Inv(st) && LinkIs(st, x, SilverList)
    requires forall y :: InBlack(st, y, 0, st.gens) ==> !Refers(st, y, x)
    ensures Inv(r.st) && Keeps(st, r.st)
    ensures r.stats.collected == s.collected && r.stats.full == s.full
    ensures Len(r.st, SilverList) < Len(st, SilverList) && At(r.st, GreyList) == At(st, GreyList)
    ensures LinkIs(r.st, x, WhiteList)
    ensures forall y :: y in st.objs && y != x ==> r.st.objs[y] == st.objs[y]
  {
    var o := st.objs[x];
    assert Agrees(o, st.gens);
    assert forall y :: y in st.objs && y != x && st.objs[y].link.BlackList? ==> !InBlack(st, y, 0, st.gens) || !Refers(st, y, x);
    assert GreyList != WhiteList && GreyList != o.link;
    Relink(st, s, clock, x, WhiteList, o.mark.(color := White), 1)
  }

  /** The found branch of the silver loop: the silver object `x` takes
      generation `g`, turns grey at a cost of one unit, the grey loop runs,
      and a pause check follows. */
  function Rescue(st: Gc, s: Stats, clock: Clock, x: Id, g: nat): (r: Run)
    requires Inv(st) && LinkIs(st, x, SilverList) && g < st.gens
    ensures Inv(r.st) && Keeps(st, r.st)
    ensures r.stats.collected == s.collected && r.stats.full == s.full
    ensures !r.paused ==> Len(r.st, SilverList) < Len(st, SilverList) && At(r.st, GreyList) == []
    ensures !Pale(r.st, x)
    ensures r.st == GreyLoop(Regrey(st, x, g), s.(threshold := s.threshold + 1), clock).st
  {
    var c := Regrey(st, x, g);
    var q := GreyLoop(c, s.(threshold := s.threshold + 1), clock);
    assert !Pale(q.st, x);
    if q.paused then q
    else Check(q.st, q.stats, clock)
  }

  /** The move of the found branch: the silver object `x` takes generation
      `g` and turns grey; nothing else changes. */
  function Regrey(st: Gc, x: Id, g: nat): (r: Gc)
    requires Inv(st) && LinkIs(st, x, SilverList) && g < st.gens
    ensures Inv(r) && Keeps(st, r)
    ensures r.objs[x].link == GreyList && !Pale(r, x)
    ensures r.objs[x].mark == st.objs[x].mark.(gen := g, color := Grey)
    ensures forall y :: y in st.objs && y != x ==> r.objs[y] == st.objs[y]
    ensures |r.lists[SilverList]| == |st.lists[SilverList]| - 1
  {
    var o := st.objs[x];
    assert Agrees(o, st.gens);
    var m := o.mark.(gen := g, color := Grey);
    MoveInv(st, x, GreyList, m);
    MoveLists(st, x, GreyList, m);
    Move(st, x, GreyList, m)
  }

  /** Grey, or black in some generation: a list of objects the mark phase
      has reached. */
  predicate Shaded(l: Loc) {
    l == GreyList || l.BlackList?
  }

  /** gc_mark_black leaves the generation of the object it works on alone:
      it stays grey, or turns black in the black list of that generation. */
  lemma MarkBlackGen(st: Gc, s: Stats, clock: Clock, x: Id)
    requires Inv(st) && LinkIs(st, x, GreyList)
    ensures MarkBlack(st, s, clock, x).st.objs[x].mark.gen == st.objs[x].mark.gen
  {
    var o := st.objs[x];
    assert LiveRefs(st, o.slots) by {
      forall t | Ptr(t) in o.slots ensures Live(st, t) {
        assert Live(st, x);
      }
    }
    var m := MarkRefs(st, s, clock, o.slots);
    MarkBlackSteps(st, s, clock, x, m);
    if !m.paused {
      BlackenGen(m.st, x);
    }
  }

  /** The two ways gc_mark_black ends: paused in the slot loop, with `x`
      untouched, or by blackening `x`. */
  lemma MarkBlackSteps(st: Gc, s: Stats, clock: Clock, x: Id, m: Run)
    requires Inv(st) && LinkIs(st, x, GreyList) && LiveRefs(st, st.objs[x].slots)
    requires m == MarkRefs(st, s, clock, st.objs[x].slots)
    ensures m.st.objs[x] == st.objs[x]
    ensures m.paused ==> MarkBlack(st, s, clock, x) == m
    ensures !m.paused ==> Inv(m.st) && LinkIs(m.st, x, GreyList) && MarkBlack(st, s, clock, x) == Run(Blacken(m.st, x), m.stats, false)
  {
  }

  lemma BlackenGen(st: Gc, x: Id)
    requires Inv(st) && LinkIs(st, x, GreyList)
    requires forall t :: Ptr(t) in st.objs[x].slots ==> !Pale(st, t)
    ensures Blacken(st, x).objs[x].mark.gen == st.objs[x].mark.gen
  {
  }

  /** gc_mark_black keeps every grey or black object grey or black, in its
      own generation. */
  lemma MarkBlackShade(st: Gc, s: Stats, clock: Clock, h: Id, x: Id)
    requires Inv(st) && LinkIs(st, h, GreyList) && x in st.objs && Shaded(st.objs[x].link)
    ensures Shaded(MarkBlack(st, s, clock, h).st.objs[x].link)
    ensures MarkBlack(st, s, clock, h).st.objs[x].mark.gen == st.objs[x].mark.gen
  {
    if h == x {
      MarkBlackGen(st, s, clock, h);
    } else {
      assert !Pale(st, x);
    }
  }

  /** A round of the grey loop keeps a grey or black object grey or black,
      in its own generation. */
  lemma GreyStepShade(st: Gc, s: Stats, clock: Clock, x: Id)
    requires Inv(st) && st.lists[GreyList] != [] && x in st.objs && Shaded(st.objs[x].link)
    ensures Shaded(GreyStep(st, s, clock).st.objs[x].link)
    ensures GreyStep(st, s, clock).st.objs[x].mark.gen == st.objs[x].mark.gen
  {
    GreyStepIs(st, s, clock);
    MarkBlackShade(st, s, clock, st.lists[GreyList][0], x);
  }

  /** A round of the grey loop changes the heap only through gc_mark_black
      on the head of the grey list. */
  lemma GreyStepIs(st: Gc, s: Stats, clock: Clock)
    requires Inv(st) && st.lists[GreyList] != []
    ensures LinkIs(st, st.lists[GreyList][0], GreyList)
    ensures GreyStep(st, s, clock).st == MarkBlack(st, s, clock, st.lists[GreyList][0]).st
  {
    HeadLink(st, GreyList);
  }

  /** A round of the grey loop whose gc_mark_black does not pause, and
      leaves the work count below the pause threshold with one unit to
      add, does not pause. */
  lemma GreyStepGoes(st: Gc, s: Stats, clock: Clock)
    requires Inv(st) && st.lists[GreyList] != []
    ensures var m := MarkBlack(st, s, clock, st.lists[GreyList][0]);
            !m.paused && m.stats.threshold + 1 < m.st.pauseThreshold ==> !GreyStep(st, s, clock).paused
  {
    HeadLink(st, GreyList);
  }

  /** The grey loop keeps a grey or black object grey or black, in its own
      generation. */
  lemma {:induction false} GreyLoopShade(st: Gc, s: Stats, clock: Clock, x: Id)
    requires Inv(st) && x in st.objs && Shaded(st.objs[x].link)
    ensures Shaded(GreyLoop(st, s, clock).st.objs[x].link)
    ensures GreyLoop(st, s, clock).st.objs[x].mark.gen == st.objs[x].mark.gen
    decreases Len(st, GreyList) + Pending(st), Pending(st)
  {
    if st.lists[GreyList] != [] {
      var c := GreyStep(st, s, clock);
      GreyStepShade(st, s, clock, x);
      if !c.paused {
        GreyLoopShade(c.st, c.stats, clock, x);
      }
    }
  }

  /** The found branch gives the rescued object generation `g` for good:
      unless the call pauses, it ends black in the black list of
      generation `g`. */
  lemma RescueGen(st: Gc, s: Stats, clock: Clock, x: Id, g: nat)
    requires Inv(st) && LinkIs(st, x, SilverList) && g < st.gens
    ensures Rescue(st, s, clock, x, g).st.objs[x].mark.gen == g
    ensures !Rescue(st, s, clock, x, g).paused ==> Rescue(st, s, clock, x, g).st.objs[x].link == BlackList(g)
  {
    GreyLoopShades(Regrey(st, x, g), clock, x);
    var r := Rescue(st, s, clock, x, g);
    if !r.paused {
      NoGreyBlack(r.st, x);
    }
  }

  /** `GreyLoopShade` for every starting count. */
  lemma GreyLoopShades(st: Gc, clock: Clock, x: Id)
    requires Inv(st) && x in st.objs && Shaded(st.objs[x].link)
    ensures forall s: Stats :: Shaded(GreyLoop(st, s, clock).st.objs[x].link) && GreyLoop(st, s, clock).st.objs[x].mark.gen == st.objs[x].mark.gen
  {
    forall s: Stats ensures Shaded(GreyLoop(st, s, clock).st.objs[x].link) && GreyLoop(st, s, clock).st.objs[x].mark.gen == st.objs[x].mark.gen {
      GreyLoopShade(st, s, clock, x);
    }
  }

  /** With the grey list empty, a grey or black object is black, in the
      black list of its own generation. */
  lemma NoGreyBlack(st: Gc, x: Id)
    requires WellFormed(st) && At(st, GreyList) == [] && x in st.objs && Shaded(st.objs[x].link)
    ensures st.objs[x].link == BlackList(st.objs[x].mark.gen)
  {
    assert x in At(st, st.objs[x].link);
    assert Agrees(st.objs[x], st.gens);
  }

  /** A silver object that the silver loop does not turn white ends black in
      the black list of the oldest generation holding a black referrer, and
      that generation has one. */
  lemma ResolveSilverGen(st: Gc, s: Stats, clock: Clock, x: Id)
    requires Inv(st) && Len(st, SilverList) > 0 && x == st.lists[SilverList][0] && LinkIs(st, x, SilverList)
    ensures var r := ResolveSilver(st, s, clock);
            !r.paused && !LinkIs(r.st, x, WhiteList) ==> RescuedInto(st, r.st, x)
  {
    var p := SearchGens(st, s, clock, x, st.gens);
    ResolveSilverIs(st, s, clock, x);
    if p.outcome.Found? {
      ResolveFound(st, clock, x, p);
    }
    FoundOutcome(st, x, p, Resolve(st, clock, x, p));
  }

  /** In `r`, the object `x` is black, in the black list of a generation
      `j` such that some black object of generation `j` in `st` refers to
      `x` and no black object of an older generation does. */
  ghost predicate RescuedInto(st: Gc, r: Gc, x: Id) {
    && x in r.objs
    && var j := r.objs[x].mark.gen;
    && r.objs[x].link == BlackList(j)
    && (exists y :: InBlack(st, y, j, j + 1) && Refers(st, y, x))
    && forall y :: InBlack(st, y, j + 1, st.gens) ==> !Refers(st, y, x)
  }

  /** What the outcome of the search tells about where the silver object
      ends. */
  lemma FoundOutcome(st: Gc, x: Id, p: Probe, r: Run)
    requires x in r.st.objs
    requires p.outcome.Found? ==> var g := p.outcome.gen;
      && InBlack(st, p.outcome.holder, g, g + 1) && Refers(st, p.outcome.holder, x)
      && (forall y :: InBlack(st, y, g + 1, st.gens) ==> !Refers(st, y, x))
      && r.st.objs[x].mark.gen == g && (!r.paused ==> r.st.objs[x].link == BlackList(g))
    requires !r.paused ==> (LinkIs(r.st, x, WhiteList) <==> p.outcome.Absent?)
    requires p.outcome.Stopped? ==> r.paused
    ensures !r.paused && !LinkIs(r.st, x, WhiteList) ==> RescuedInto(st, r.st, x)
  {
    if !r.paused && !LinkIs(r.st, x, WhiteList) {
      assert InBlack(st, p.outcome.holder, p.outcome.gen, p.outcome.gen + 1);
    }
  }

  /** A round of the silver loop is the search for a black referrer of the
      head of the silver list followed by what `Resolve` does with it. */
  lemma ResolveSilverIs(st: Gc, s: Stats, clock: Clock, x: Id)
    requires Inv(st) && Len(st, SilverList) > 0 && x == st.lists[SilverList][0] && LinkIs(st, x, SilverList)
    ensures ResolveSilver(st, s, clock) == Resolve(st, clock, x, SearchGens(st, s, clock, x, st.gens))
  {
  }

  /** A search that found a black referrer in generation `g` rescues the
      silver object into generation `g`. */
  lemma ResolveFound(st: Gc, clock: Clock, x: Id, p: Probe)
    requires Inv(st) && LinkIs(st, x, SilverList) && p.outcome.Found? && p.outcome.gen < st.gens
    requires InBlack(st, p.outcome.holder, p.outcome.gen, p.outcome.gen + 1) && Refers(st, p.outcome.holder, x)
    ensures Resolve(st, clock, x, p).st.objs[x].mark.gen == p.outcome.gen
    ensures !Resolve(st, clock, x, p).paused ==> Resolve(st, clock, x, p).st.objs[x].link == BlackList(p.outcome.gen)
  {
    RescueGen(st, p.stats, clock, x, p.outcome.gen);
  }

  /** The silver loop: silver objects are resolved from the head until none
      is left. */
  function SilverLoop(st: Gc, s: Stats, clock: Clock): (r: Run)
    requires Inv(st)
    ensures Inv(r.st) && Keeps(st, r.st)
    ensures r.stats.collected == s.collected && r.stats.full == s.full
    ensures !r.paused ==> At(r.st, SilverList) == []
    ensures !r.paused && At(st, GreyList) == [] ==> At(r.st, GreyList) == []
    decreases Len(st, SilverList)
  {
    if st.lists[SilverList] == [] then Run(st, s, false)
    else
      var c := ResolveSilver(st, s, clock);
      if c.paused then c
      else SilverLoop(c.st, c.stats, clock)
  }

  // ---------------------------------------------------------------------
  // Sweep.

  /** The sweep phase: a non-empty white list is spliced in front of the
      transparent list at a cost of 50 units, and a pause check follows. */
  function SweepPhase(st: Gc, s: Stats, clock: Clock): (r: Run)
    requires Inv(st) && At(st, GreyList) == [] && At(st, SilverList) == []
    ensures Inv(r.st) && Keeps(st, r.st)
    ensures r.stats.collected == s.collected && r.stats.full == s.full
    ensures At(r.st, WhiteList) == []
    ensures forall l :: l != WhiteList && l != TransparentList ==> At(r.st, l) == At(st, l)
  {
    if st.lists[WhiteList] == [] then Run(st, s, false)
    else
      SweepInv(st);
      Check(Sweep(st), s.(threshold := s.threshold + 50), clock)
  }

  /** What the sweep does to each object: a white object becomes
      transparent, now awaiting its finalizer, and no other object moves. */
  lemma SweepPhaseLinks(st: Gc, s: Stats, clock: Clock)
    requires Inv(st) && At(st, GreyList) == [] && At(st, SilverList) == []
    ensures forall y :: y in st.objs ==>
              SweepPhase(st, s, clock).st.objs[y].link == if LinkIs(st, y, WhiteList) then TransparentList else st.objs[y].link
    ensures forall y :: y in SweepPhase(st, s, clock).st.objs ==>
              LinkIs(SweepPhase(st, s, clock).st, y, TransparentList) || SweepPhase(st, s, clock).st.objs[y].link == st.objs[y].link
  {
    if st.lists[WhiteList] == [] {
      forall y | y in st.objs ensures !LinkIs(st, y, WhiteList) {
        assert y in At(st, st.objs[y].link);
      }
    }
  }

  // ---------------------------------------------------------------------
  // The gc() driver.

  /** With the transparent, white, silver and grey lists empty, every object
      is black. */
  lemma OnlyBlack(st: Gc)
    requires Inv(st)
    requires At(st, TransparentList) == [] && At(st, WhiteList) == [] && At(st, SilverList) == [] && At(st, GreyList) == []
    ensures forall y :: y in st.objs ==> st.objs[y].link.BlackList?
  {
    forall y | y in st.objs ensures st.objs[y].link.BlackList? {
      assert y in At(st, st.objs[y].link);
    }
  }

  /** gc() after the sweep: the second transparent cleanup, after which
      the cycle is marked full. */
  function FinalCleanup(st: Gc, s: Stats, clock: Clock): (r: Run)
    requires Inv(st) && At(st, WhiteList) == [] && At(st, GreyList) == [] && At(st, SilverList) == [] && !s.full
    ensures Inv(r.st) && Evolves(st, r.st)
    ensures r.stats.collected == s.collected + (|r.st.finalized| - |st.finalized|)
    ensures r.stats.full <==> !r.paused
    ensures !r.paused ==> forall y :: y in r.st.objs ==> r.st.objs[y].link.BlackList?
  {
    var f := Cleanup(st, s, clock);
    if f.paused then f
    else
      assert At(f.st, WhiteList) == [] && At(f.st, GreyList) == [] && At(f.st, SilverList) == [];
      OnlyBlack(f.st);
      Run(f.st, f.stats.(full := true), false)
  }

  /** gc() from the sweep on. */
  function SweepOnward(st: Gc, s: Stats, clock: Clock): (r: Run)
    requires Inv(st) && At(st, GreyList) == [] && At(st, SilverList) == [] && !s.full
    ensures Inv(r.st) && Evolves(st, r.st)
    ensures r.stats.collected == s.collected + (|r.st.finalized| - |st.finalized|)
    ensures r.stats.full <==> !r.paused
    ensures !r.paused ==> forall y :: y in r.st.objs ==> r.st.objs[y].link.BlackList?
  {
    var e := SweepPhase(st, s, clock);
    KeepsEvolves(st, e.st);
    if e.paused then e
    else
      assert At(e.st, GreyList) == [] && At(e.st, SilverList) == [];
      var r := FinalCleanup(e.st, e.stats, clock);
      EvolvesTrans(st, e.st, r.st);
      r
  }

  /** gc() from the silver loop on. */
  function SilverOnward(st: Gc, s: Stats, clock: Clock): (r: Run)
    requires Inv(st) && At(st, GreyList) == [] && !s.full
    ensures Inv(r.st) && Evolves(st, r.st)
    ensures r.stats.collected == s.collected + (|r.st.finalized| - |st.finalized|)
    ensures r.stats.full <==> !r.paused
    ensures !r.paused ==> forall y :: y in r.st.objs ==> r.st.objs[y].link.BlackList?
  {
    var d := SilverLoop(st, s, clock);
    KeepsEvolves(st, d.st);
    if d.paused then d
    else
      var r := SweepOnward(d.st, d.stats, clock);
      EvolvesTrans(st, d.st, r.st);
      r
  }

  /** gc() from the grey loop on. */
  function MarkOnward(st: Gc, s: Stats, clock: Clock): (r: Run)
    requires Inv(st) && !s.full
    ensures Inv(r.st) && Evolves(st, r.st)
    ensures r.stats.collected == s.collected + (|r.st.finalized| - |st.finalized|)
    ensures r.stats.full <==> !r.paused
    ensures !r.paused ==> forall y :: y in r.st.objs ==> r.st.objs[y].link.BlackList?
  {
    var c := GreyLoop(st, s, clock);
    KeepsEvolves(st, c.st);
    if c.paused then c
    else
      var r := SilverOnward(c.st, c.stats, clock);
      EvolvesTrans(st, c.st, r.st);
      r
  }

  /** gc() from the generation loop on. */
  function GenerationsOnward(st: Gc, s: Stats, clock: Clock): (r: Run)
    requires Inv(st) && !s.full
    ensures Inv(r.st) && Evolves(st, r.st)
    ensures r.stats.collected == s.collected + (|r.st.finalized| - |st.finalized|)
    ensures r.stats.full <==> !r.paused
    ensures !r.paused ==> forall y :: y in r.st.objs ==> r.st.objs[y].link.BlackList?
  {
    var b := Generations(st, s, clock, 0);
    KeepsEvolves(st, b.st);
    if b.paused then b
    else
      var r := MarkOnward(b.st, b.stats, clock);
      EvolvesTrans(st, b.st, r.st);
      r
  }

  /** gc(): the counters start from zero, the phases run in order, and
      gc_cycle_end banks the remaining work count, whether the call ran to
      the end or paused. cycle_collected counts exactly the objects handed
      to the finalizer, and a call that runs to the end leaves only black
      objects. */
  function Collect(st: Gc, clock: Clock): (r: Run)
    requires Inv(st)
    ensures Inv(r.st) && Evolves(st, r.st)
    ensures r.stats.collected == |r.st.finalized| - |st.finalized|
    ensures r.stats.full <==> !r.paused
    ensures !r.paused ==> forall y :: y in r.st.objs ==> r.st.objs[y].link.BlackList?
  {
    var a := Cleanup(st, Stats(0, 0, 0, false, 0), clock);
    if a.paused then Run(a.st, End(a.stats), true)
    else
      var r := GenerationsOnward(a.st, a.stats, clock);
      EvolvesTrans(st, a.st, r.st);
      Run(r.st, End(r.stats), r.paused)
  }
}

/** The collector's state and its primitive steps.

    Every managed object sits on exactly one list: transparent (swept,
    awaiting finalization), white, silver, grey, or the black list of its
    generation. An object records which list holds it (`link`, the model of
    its back-pointer), its decoded mark word and its reference slots. The
    configuration keeps the generation count and the pause threshold. */
module Heap {
  import opened MarkWord
  import opened Lists
  import opened Reach

  /** refs_count is a uint16 field, and the slot loops count with a uint16. */
  const MaxSlots: nat := 0x1_0000

  /** The list heads: transparent, white, silver, grey and black[gen]. */
  datatype Loc = TransparentList | WhiteList | SilverList | GreyList | BlackList(gen: nat)

  datatype Object = Object(link: Loc, mark: Mark, slots: seq<Ref>)

  /** `finalized` logs every object handed to its finalizer, in order. */
  datatype Gc = Gc(gens: nat, pauseThreshold: nat, objs: map<Id, Object>, lists: map<Loc, seq<Id>>,
                   nextId: nat, finalized: seq<Id>)

  predicate ValidLoc(gens: nat, l: Loc) {
    l.BlackList? ==> l.gen < gens
  }

  /** The mark of an object agrees with the list that holds it; only grey and
      black objects may carry roots. */
  predicate Agrees(o: Object, gens: nat) {
    && Fits(o.mark) && o.mark.gen < gens && |o.slots| < MaxSlots
    && match o.link
       case TransparentList => o.mark.color == White && o.mark.roots == 0
       case WhiteList => o.mark.color == White && o.mark.roots == 0
       case SilverList => o.mark.color == Silver && o.mark.roots == 0
       case GreyList => o.mark.color == Grey
       case BlackList(g) => o.mark.color == Black && o.mark.gen == g
  }

  predicate LinkIs(st: Gc, x: Id, l: Loc) {
    x in st.objs && st.objs[x].link == l
  }

  /** Managed and not yet swept: what gc_contains reports. */
  predicate Live(st: Gc, x: Id) {
    x in st.objs && st.objs[x].link != TransparentList
  }

  /** A white or silver object: what marking and gc_add_root turn grey. */
  predicate Pale(st: Gc, t: Id) {
    t in st.objs && (st.objs[t].link == WhiteList || st.objs[t].link == SilverList)
  }

  /** Each list head exists exactly for the valid locations; the lists hold
      no object twice and hold exactly the objects whose link names them. */
  ghost predicate WellFormed(st: Gc) {
    && 1 <= st.gens <= MaxGens
    && (forall l :: l in st.lists <==> ValidLoc(st.gens, l))
    && (forall l :: l in st.lists ==> NoDup(st.lists[l]))
    && (forall l, x :: l in st.lists && x in st.lists[l] ==> LinkIs(st, x, l))
    && (forall x :: x in st.objs ==> st.objs[x].link in st.lists && x in st.lists[st.objs[x].link])
    && (forall x :: x in st.objs ==> Agrees(st.objs[x], st.gens))
  }

  /** Live objects refer only to live objects, and no black object refers to
      a white one (the tri-colour invariant the write barrier keeps). */
  ghost predicate SlotsOk(st: Gc) {
    && (forall x, t :: Live(st, x) && Ptr(t) in st.objs[x].slots ==> Live(st, t))
    && (forall x, t :: x in st.objs && st.objs[x].link.BlackList? && Ptr(t) in st.objs[x].slots ==> !LinkIs(st, t, WhiteList))
  }

  /** Ids are handed out once; every id ever allocated is either managed or
      finalized, and none is finalized twice. */
  ghost predicate Accounted(st: Gc) {
    && (forall x :: x in st.objs ==> x < st.nextId)
    && NoDup(st.finalized)
    && (forall x :: x in st.finalized ==> x < st.nextId && x !in st.objs)
    && |st.objs| + |st.finalized| == st.nextId
  }

  ghost predicate Inv(st: Gc) {
    WellFormed(st) && SlotsOk(st) && Accounted(st)
  }

  /** What reachability sees of the heap: root counts and slots. */
  function View(st: Gc): (g: Graph)
    ensures g.Keys == st.objs.Keys
    ensures forall x :: x in g ==> g[x].roots == st.objs[x].mark.roots && g[x].slots == st.objs[x].slots
  {
    map x | x in st.objs :: Node(st.objs[x].mark.roots, st.objs[x].slots)
  }

  /** How a collection step may change the state: configuration and id
      counter stay; objects keep their roots and slots; only unreachable
      objects disappear, each of them finalized. */
  ghost predicate Evolves(st: Gc, st': Gc) {
    && st'.gens == st.gens && st'.pauseThreshold == st.pauseThreshold && st'.nextId == st.nextId
    && (forall x :: x in st'.objs ==> x in st.objs)
    && (forall x :: x in st'.objs ==> st'.objs[x].mark.roots == st.objs[x].mark.roots && st'.objs[x].slots == st.objs[x].slots)
    && (forall x :: x in st.objs && x !in st'.objs ==> !Reachable(View(st), x))
    && st.finalized <= st'.finalized
    && (forall x :: x in st'.finalized[|st.finalized|..] ==> x in st.objs && x !in st'.objs)
  }

  // ---------------------------------------------------------------------
  // Reachability facts that follow from the invariant.

  /** Under the invariant only live objects are reachable: in particular the
      transparent objects are garbage. */
  lemma LiveReach(st: Gc, x: Id)
    requires WellFormed(st) && SlotsOk(st) && Reachable(View(st), x)
    ensures Live(st, x)
  {
    var g := View(st);
    var live := set y | y in st.objs && st.objs[y].link != TransparentList;
    forall y | Rooted(g, y) ensures y in live {
      assert Agrees(st.objs[y], st.gens);
    }
    forall y, k | y in live && y in g && 0 <= k < |g[y].slots| && g[y].slots[k].Ptr?
      ensures g[y].slots[k].id in live
    {
      var t := g[y].slots[k].id;
      assert Live(st, y) && Ptr(t) in st.objs[y].slots;
      assert Live(st, t);
    }
    assert RootedClosed(g, live);
    ClosedSetHoldsReachable(g, live, x);
  }

  /** Reachability is unchanged by a step that only removes unreachable
      objects and keeps the others' roots and slots. */
  lemma EvolvesReach(st: Gc, st': Gc)
    requires Evolves(st, st')
    ensures forall x :: Reachable(View(st'), x) <==> Reachable(View(st), x)
  {
    RestrictReach(View(st), View(st'));
  }

  lemma EvolvesTrans(a: Gc, b: Gc, c: Gc)
    requires Evolves(a, b) && Evolves(b, c)
    ensures Evolves(a, c)
  {
    EvolvesReach(a, b);
    forall x | x in c.finalized[|a.finalized|..] ensures x in a.objs && x !in c.objs {
      var i :| |a.finalized| <= i < |c.finalized| && c.finalized[i] == x;
      if i < |b.finalized| {
        assert b.finalized[i] == x;
        assert x in b.finalized[|a.finalized|..];
      } else {
        assert x in c.finalized[|b.finalized|..];
      }
    }
  }

  lemma EvolvesRefl(st: Gc)
    ensures Evolves(st, st)
  {
    assert st.finalized[|st.finalized|..] == [];
  }

  /** A step that removes no object: configuration, ids, list names and the
      finalized record stay, and objects keep their roots and slots. */
  ghost predicate Keeps(st: Gc, st': Gc) {
    && st'.gens == st.gens && st'.pauseThreshold == st.pauseThreshold && st'.nextId == st.nextId
    && st'.objs.Keys == st.objs.Keys && st'.lists.Keys == st.lists.Keys && st'.finalized == st.finalized
    && (forall x :: x in st'.objs ==> st'.objs[x].mark.roots == st.objs[x].mark.roots && st'.objs[x].slots == st.objs[x].slots)
  }

  lemma KeepsEvolves(st: Gc, st': Gc)
    requires Keeps(st, st')
    ensures Evolves(st, st')
  {
    assert st'.finalized[|st.finalized|..] == [];
  }

  /** A step that changes only object `x` (or adds it) changes only `x`'s
      node in what reachability sees. */
  lemma ViewOne(st: Gc, r: Gc, x: Id, n: Node)
    requires r.objs.Keys == st.objs.Keys + {x}
    requires forall y :: y in st.objs && y != x ==> r.objs[y] == st.objs[y]
    requires x in r.objs && n == Node(r.objs[x].mark.roots, r.objs[x].slots)
    ensures View(r) == View(st)[x := n]
  {
    var a, b := View(r), View(st)[x := n];
    assert a.Keys == b.Keys;
    forall y | y in a ensures a[y] == b[y] {
    }
  }

  /** A step that keeps every object's roots and slots keeps the view. */
  lemma SameView(st: Gc, r: Gc)
    requires r.objs.Keys == st.objs.Keys
    requires forall y :: y in st.objs ==> r.objs[y].mark.roots == st.objs[y].mark.roots && r.objs[y].slots == st.objs[y].slots
    ensures View(r) == View(st)
  {
    var a, b := View(r), View(st);
    forall y | y in a ensures a[y] == b[y] {
    }
  }

  /** A step that leaves every object on its list and changes only the mark
      or slots of `x` keeps the lists well formed, if the new mark agrees. */
  lemma RetouchWellFormed(st: Gc, r: Gc, x: Id)
    requires WellFormed(st) && x in st.objs
    requires r.gens == st.gens && r.lists == st.lists && r.objs.Keys == st.objs.Keys
    requires forall y :: y in st.objs && y != x ==> r.objs[y] == st.objs[y]
    requires r.objs[x].link == st.objs[x].link && Agrees(r.objs[x], r.gens)
    ensures WellFormed(r)
  {
    forall l, y | l in r.lists && y in r.lists[l] ensures LinkIs(r, y, l) {
      assert LinkIs(st, y, l);
    }
    forall y | y in r.objs ensures r.objs[y].link in r.lists && y in r.lists[r.objs[y].link] {
      assert y in st.lists[st.objs[y].link];
    }
    forall y | y in r.objs ensures Agrees(r.objs[y], r.gens) {
      if y != x { assert Agrees(st.objs[y], st.gens); }
    }
  }

  // ---------------------------------------------------------------------
  // gc_list_move together with the mark update that accompanies it.

  /** Unlinks `x` from its list, links it at the head of `to` and gives it
      mark `m`. */
  function Move(st: Gc, x: Id, to: Loc, m: Mark): (r: Gc)
    requires x in st.objs && st.objs[x].link in st.lists && to in st.lists
    ensures r.objs.Keys == st.objs.Keys && r.lists.Keys == st.lists.Keys
    ensures r.objs[x] == Object(to, m, st.objs[x].slots)
    ensures forall y :: y in st.objs && y != x ==> r.objs[y] == st.objs[y]
  {
    var from := st.objs[x].link;
    var removed := st.lists[from := Remove(st.lists[from], x)];
    st.(objs := st.objs[x := st.objs[x].(link := to, mark := m)],
        lists := removed[to := Add(removed[to], x)])
  }

  /** A move to a list other than white or silver makes no object pale. */
  lemma MoveNotPale(st: Gc, x: Id, to: Loc, m: Mark)
    requires x in st.objs && st.objs[x].link in st.lists && to in st.lists
    requires to != WhiteList && to != SilverList
    ensures forall t :: Pale(Move(st, x, to, m), t) ==> Pale(st, t)
  {
    var r := Move(st, x, to, m);
    forall t | Pale(r, t) ensures Pale(st, t) {
      assert t != x && r.objs[t] == st.objs[t];
    }
  }

  /** gc_list_move: the object leaves its old list, lands at the head of the
      target, and every other list is unchanged. */
  lemma MoveLists(st: Gc, x: Id, to: Loc, m: Mark)
    requires WellFormed(st) && x in st.objs && ValidLoc(st.gens, to) && st.objs[x].link != to
    ensures Move(st, x, to, m).lists[to] == [x] + st.lists[to]
    ensures forall y :: y in Move(st, x, to, m).lists[st.objs[x].link] <==> y in st.lists[st.objs[x].link] && y != x
    ensures |Move(st, x, to, m).lists[st.objs[x].link]| == |st.lists[st.objs[x].link]| - 1
    ensures forall l :: l != to && l != st.objs[x].link ==> At(Move(st, x, to, m), l) == At(st, l)
  {
    RemoveNoDup(st.lists[st.objs[x].link], x);
  }

  /** Moving an object with a mark that agrees with its new list keeps the
      lists well formed. */
  lemma MoveWellFormed(st: Gc, x: Id, to: Loc, m: Mark)
    requires WellFormed(st) && x in st.objs && ValidLoc(st.gens, to)
    requires Agrees(Object(to, m, st.objs[x].slots), st.gens)
    ensures WellFormed(Move(st, x, to, m))
  {
    var r := Move(st, x, to, m);
    var from := st.objs[x].link;
    var removed := st.lists[from := Remove(st.lists[from], x)];
    RemoveNoDup(st.lists[from], x);
    assert x !in removed[to];
    forall l | l in r.lists ensures NoDup(r.lists[l]) {
      if l == to {
        AddNoDup(removed[to], x);
      }
    }
    forall l, y | l in r.lists && y in r.lists[l] ensures LinkIs(r, y, l) {
      if y != x {
        assert y in st.lists[l] by {
          if l == to {
            assert y in removed[to];
          }
        }
        assert LinkIs(st, y, l);
      }
    }
    forall y | y in r.objs ensures r.objs[y].link in r.lists && y in r.lists[r.objs[y].link] {
      if y != x {
        var l := st.objs[y].link;
        assert y in removed[l];
      }
    }
  }

  /** The step keeps every object's roots and slots and removes none. */
  lemma MoveKeeps(st: Gc, x: Id, to: Loc, m: Mark)
    requires WellFormed(st) && x in st.objs && ValidLoc(st.gens, to) && m.roots == st.objs[x].mark.roots
    ensures Keeps(st, Move(st, x, to, m))
  {
  }

  /** Moving a live object keeps the slot invariant, provided it does not
      become a black object with a white referent, nor a white object with
      a black referrer. */
  lemma MoveSlotsOk(st: Gc, x: Id, to: Loc, m: Mark)
    requires WellFormed(st) && SlotsOk(st) && Live(st, x) && ValidLoc(st.gens, to) && to != TransparentList
    requires to.BlackList? ==> forall t :: Ptr(t) in st.objs[x].slots && t != x ==> !LinkIs(st, t, WhiteList)
    requires to == WhiteList ==> forall y :: y in st.objs && y != x && st.objs[y].link.BlackList? ==> Ptr(x) !in st.objs[y].slots
    ensures SlotsOk(Move(st, x, to, m))
  {
    var r := Move(st, x, to, m);
    forall y, t | Live(r, y) && Ptr(t) in r.objs[y].slots ensures Live(r, t) {
      assert Live(st, y);
    }
    forall y, t | y in r.objs && r.objs[y].link.BlackList? && Ptr(t) in r.objs[y].slots
      ensures !LinkIs(r, t, WhiteList)
    {
      if y != x && t != x {
        assert !LinkIs(st, t, WhiteList);
      }
    }
  }

  lemma MoveAccounted(st: Gc, x: Id, to: Loc, m: Mark)
    requires Accounted(st) && x in st.objs && st.objs[x].link in st.lists && to in st.lists
    ensures Accounted(Move(st, x, to, m))
  {
    assert Move(st, x, to, m).objs.Keys == st.objs.Keys;
  }

  /** A move that respects the colour discipline keeps the whole invariant
      and changes nothing reachability sees. */
  lemma MoveInv(st: Gc, x: Id, to: Loc, m: Mark)
    requires Inv(st) && Live(st, x) && ValidLoc(st.gens, to) && to != TransparentList
    requires Agrees(Object(to, m, st.objs[x].slots), st.gens) && m.roots == st.objs[x].mark.roots
    requires to.BlackList? ==> forall t :: Ptr(t) in st.objs[x].slots && t != x ==> !LinkIs(st, t, WhiteList)
    requires to == WhiteList ==> forall y :: y in st.objs && y != x && st.objs[y].link.BlackList? ==> Ptr(x) !in st.objs[y].slots
    ensures Inv(Move(st, x, to, m)) && Keeps(st, Move(st, x, to, m))
  {
    MoveWellFormed(st, x, to, m);
    MoveSlotsOk(st, x, to, m);
    MoveAccounted(st, x, to, m);
    MoveKeeps(st, x, to, m);
  }

  /** The head of a non-empty list is an object that list holds. */
  lemma HeadLink(st: Gc, l: Loc)
    requires WellFormed(st) && l in st.lists && |st.lists[l]| > 0
    ensures LinkIs(st, st.lists[l][0], l)
  {
    assert st.lists[l][0] in st.lists[l];
  }

  /** The list at a location, empty for a location with no list. */
  function At(st: Gc, l: Loc): seq<Id> {
    if l in st.lists then st.lists[l] else []
  }

  /** Length of a list, zero for a location with no list. */
  function Len(st: Gc, l: Loc): nat {
    if l in st.lists then |st.lists[l]| else 0
  }

  // ---------------------------------------------------------------------
  // Finalizing the head of the transparent list.

  /** One round of the transparent cleanup loops (and of gc_free_list): the
      head object is finalized and freed. */
  function Free(st: Gc): (r: Gc)
    requires WellFormed(st) && |st.lists[TransparentList]| > 0
    ensures r.lists.Keys == st.lists.Keys
    ensures r.finalized == st.finalized + [st.lists[TransparentList][0]]
    ensures r.objs.Keys == st.objs.Keys - {st.lists[TransparentList][0]}
    ensures r.lists[TransparentList] == st.lists[TransparentList][1..]
    ensures forall l :: l != TransparentList ==> At(r, l) == At(st, l)
  {
    var t := st.lists[TransparentList];
    st.(objs := st.objs - {t[0]}, lists := st.lists[TransparentList := t[1..]],
        finalized := st.finalized + [t[0]])
  }

  lemma FreeWellFormed(st: Gc)
    requires WellFormed(st) && |st.lists[TransparentList]| > 0
    ensures WellFormed(Free(st))
  {
    var t := st.lists[TransparentList];
    var x := t[0];
    var r := Free(st);
    TailNoDup(t);
    forall l, y | l in r.lists && y in r.lists[l] ensures LinkIs(r, y, l) {
      assert y in st.lists[l];
      if l != TransparentList { assert LinkIs(st, y, l) && LinkIs(st, x, TransparentList); }
    }
    forall y | y in r.objs ensures y in r.lists[r.objs[y].link] {
      assert y in st.lists[st.objs[y].link];
    }
  }

  lemma FreeSlotsOk(st: Gc)
    requires WellFormed(st) && SlotsOk(st) && |st.lists[TransparentList]| > 0
    ensures SlotsOk(Free(st))
  {
    var r := Free(st);
    var t := st.lists[TransparentList];
    assert t[0] in t && LinkIs(st, t[0], TransparentList);
    forall y, u | Live(r, y) && Ptr(u) in r.objs[y].slots ensures Live(r, u) {
      assert Live(st, y);
    }
  }

  lemma FreeAccounted(st: Gc)
    requires WellFormed(st) && Accounted(st) && |st.lists[TransparentList]| > 0
    ensures Accounted(Free(st))
  {
    var t := st.lists[TransparentList];
    var x := t[0];
    assert x in t && LinkIs(st, x, TransparentList);
    AppendNoDup(st.finalized, x);
  }

  /** A transparent object is unreachable. */
  lemma TransparentUnreached(st: Gc, x: Id)
    requires WellFormed(st) && SlotsOk(st) && TransparentList in st.lists && x in st.lists[TransparentList]
    ensures !Reachable(View(st), x)
  {
    assert LinkIs(st, x, TransparentList);
    if Reachable(View(st), x) {
      LiveReach(st, x);
    }
  }

  /** The freed object was unreachable: only its removal changes the heap's
      reachable part, which is to say it does not change it. */
  lemma FreeEvolves(st: Gc)
    requires WellFormed(st) && SlotsOk(st) && |st.lists[TransparentList]| > 0
    ensures Evolves(st, Free(st))
    ensures !Reachable(View(st), st.lists[TransparentList][0])
  {
    var x := st.lists[TransparentList][0];
    TransparentUnreached(st, x);
    assert LinkIs(st, x, TransparentList);
    DropEvolves(st, Free(st), x);
  }

  /** Removing one unreachable object, and finalizing it, is a step the
      collector may take. */
  lemma DropEvolves(st: Gc, r: Gc, x: Id)
    requires x in st.objs && !Reachable(View(st), x)
    requires r.gens == st.gens && r.pauseThreshold == st.pauseThreshold && r.nextId == st.nextId
    requires r.objs == st.objs - {x} && r.finalized == st.finalized + [x]
    ensures Evolves(st, r)
  {
    assert r.finalized[|st.finalized|..] == [x];
  }

  /** Freeing a transparent object keeps the invariant and removes exactly
      one object, which was unreachable. */
  lemma FreeInv(st: Gc)
    requires Inv(st) && |st.lists[TransparentList]| > 0
    ensures Inv(Free(st)) && Evolves(st, Free(st))
    ensures |Free(st).objs| == |st.objs| - 1
    ensures !Reachable(View(st), st.lists[TransparentList][0])
  {
    FreeWellFormed(st);
    FreeSlotsOk(st);
    FreeAccounted(st);
    FreeEvolves(st);
  }

  // ---------------------------------------------------------------------
  // The sweep splice.

  /** The sweep phase: gc_list_move_all(&white, &transparent), guarded by a
      non-empty white list as in the source. Swept objects keep their white
      mark and now count as transparent. */
  function Sweep(st: Gc): (r: Gc)
    requires WellFormed(st) && |st.lists[WhiteList]| > 0
    ensures r.lists.Keys == st.lists.Keys
    ensures r.lists[WhiteList] == []
    ensures r.lists[TransparentList] == st.lists[WhiteList] + st.lists[TransparentList]
    ensures forall l :: l != WhiteList && l != TransparentList ==> At(r, l) == At(st, l)
    ensures r.objs.Keys == st.objs.Keys
    ensures forall y :: y in st.objs ==> r.objs[y].mark == st.objs[y].mark && r.objs[y].slots == st.objs[y].slots
    ensures forall y :: y in st.objs ==> r.objs[y].link == if st.objs[y].link == WhiteList then TransparentList else st.objs[y].link
    ensures r.finalized == st.finalized
  {
    var moved := MoveAll(st.lists[WhiteList], st.lists[TransparentList]);
    st.(objs := map y | y in st.objs :: if st.objs[y].link == WhiteList then st.objs[y].(link := TransparentList) else st.objs[y],
        lists := st.lists[WhiteList := moved.0][TransparentList := moved.1])
  }

  lemma SweepWellFormed(st: Gc)
    requires WellFormed(st) && |st.lists[WhiteList]| > 0
    ensures WellFormed(Sweep(st))
  {
    var r := Sweep(st);
    var w, t := st.lists[WhiteList], st.lists[TransparentList];
    assert forall x :: x in w ==> x !in t by {
      forall x | x in w ensures x !in t {
        assert LinkIs(st, x, WhiteList);
      }
    }
    MoveAllNoDup(w, t);
    forall l | l in r.lists ensures NoDup(r.lists[l]) {
      if l != WhiteList && l != TransparentList { assert r.lists[l] == st.lists[l]; }
    }
    forall y | y in r.objs ensures Agrees(r.objs[y], r.gens) {
      assert Agrees(st.objs[y], st.gens);
    }
    forall l, y | l in r.lists && y in r.lists[l] ensures LinkIs(r, y, l) {
      if l == TransparentList {
        if y in w { assert LinkIs(st, y, WhiteList); } else { assert LinkIs(st, y, TransparentList); }
      } else {
        assert LinkIs(st, y, l);
      }
    }
    forall y | y in r.objs ensures r.objs[y].link in r.lists && y in r.lists[r.objs[y].link] {
      assert y in st.lists[st.objs[y].link];
    }
  }

  lemma SweepSlotsOk(st: Gc)
    requires WellFormed(st) && SlotsOk(st) && |st.lists[WhiteList]| > 0
    requires st.lists[GreyList] == [] && st.lists[SilverList] == []
    ensures SlotsOk(Sweep(st))
  {
    var r := Sweep(st);
    forall y, u | Live(r, y) && Ptr(u) in r.objs[y].slots ensures Live(r, u) {
      var l := st.objs[y].link;
      assert y in st.lists[l];
      assert l.BlackList?;
      assert Live(st, u) && !LinkIs(st, u, WhiteList);
    }
    forall y, u | y in r.objs && r.objs[y].link.BlackList? && Ptr(u) in r.objs[y].slots
      ensures !LinkIs(r, u, WhiteList)
    {
      assert Live(st, u);
    }
  }

  /** Once grey and silver are empty, sweeping keeps the invariant; it frees
      nothing itself. */
  lemma SweepInv(st: Gc)
    requires Inv(st) && |st.lists[WhiteList]| > 0 && st.lists[GreyList] == [] && st.lists[SilverList] == []
    ensures Inv(Sweep(st)) && Keeps(st, Sweep(st)) && View(Sweep(st)) == View(st)
  {
    SweepWellFormed(st);
    SweepSlotsOk(st);
    SweepView(st);
    var r := Sweep(st);
    assert Accounted(r) by {
      assert r.objs.Keys == st.objs.Keys;
    }
  }

  lemma SweepView(st: Gc)
    requires WellFormed(st) && |st.lists[WhiteList]| > 0
    ensures View(Sweep(st)) == View(st)
  {
    SameView(st, Sweep(st));
  }

  /** Everything the sweep hands to the finalizer is unreachable: once grey
      and silver are empty, the black objects hold all roots and are closed
      under references. */
  lemma SweepUnreachable(st: Gc, x: Id)
    requires Inv(st) && st.lists[GreyList] == [] && st.lists[SilverList] == []
    requires x in st.lists[WhiteList]
    ensures !Reachable(View(st), x)
  {
    SweepInv(st);
    var r := Sweep(st);
    assert LinkIs(st, x, WhiteList);
    if Reachable(View(st), x) {
      LiveReach(r, x);
    }
  }

  // ---------------------------------------------------------------------
  // The empty heap.

  function AllLocs(gens: nat): (s: set<Loc>)
    ensures forall l :: l in s <==> ValidLoc(gens, l)
  {
    var blacks := set g | 0 <= g < gens :: BlackList(g);
    assert forall l: Loc :: l.BlackList? && l.gen < gens ==> l in blacks by {
      forall l: Loc | l.BlackList? && l.gen < gens ensures l in blacks {
        assert l == BlackList(l.gen);
      }
    }
    {TransparentList, WhiteList, SilverList, GreyList} + blacks
  }

  /** gc_init's state for a generation count it accepts: every list empty. */
  function Empty(gens: nat, pauseThreshold: nat): (st: Gc)
    requires 1 <= gens <= MaxGens
    ensures Inv(st) && st.objs == map[] && st.nextId == 0
    ensures forall l :: l in st.lists ==> st.lists[l] == []
  {
    Gc(gens, pauseThreshold, map[], map l | l in AllLocs(gens) :: [], 0, [])
  }
}

/** The mutator's side of the collector: set-up and tear-down, allocation,
    root registration, the reference store with its write barrier, and the
    membership query.

    Each call works on the object's mark word through the macros of
    MarkWord, and the lemmas show two things about it: the heap invariant
    is kept, and the call changes what reachability sees exactly as the
    test harness's mirror of that call changes its own objects. */
module Mutator {
  import opened MarkWord
  import opened Lists
  import opened Reach
  import opened Heap

  // ---------------------------------------------------------------------
  // gc_init and gc_destroy.

  /** gc_init refuses a generation count it cannot encode (setting errno to
      EINVAL and initialising nothing), or starts with every list empty. */
  datatype Started = Invalid | Started(st: Gc)

  function Init(gens: nat, pauseThreshold: nat): (r: Started)
    ensures r.Invalid? <==> gens == 0 || gens > MaxGens
    ensures r.Started? ==> Inv(r.st) && r.st.gens == gens && r.st.pauseThreshold == pauseThreshold
    ensures r.Started? ==> r.st.objs == map[] && r.st.nextId == 0 && r.st.finalized == []
    ensures r.Started? ==> forall l :: ValidLoc(gens, l) ==> r.st.lists[l] == []
  {
    if gens == 0 || gens > MaxGens then Invalid else Started(Empty(gens, pauseThreshold))
  }

  /** The lists in the order gc_destroy frees them. */
  function DrainOrder(gens: nat): (ls: seq<Loc>)
    ensures forall l :: l in ls <==> ValidLoc(gens, l)
    ensures NoDup(ls)
  {
    var blacks := seq(gens, g requires 0 <= g => BlackList(g));
    assert forall l: Loc :: l in blacks <==> l.BlackList? && l.gen < gens by {
      forall l: Loc | l.BlackList? && l.gen < gens ensures l in blacks {
        assert blacks[l.gen] == l;
      }
    }
    var ls := [TransparentList, WhiteList, SilverList, GreyList] + blacks;
    assert forall k :: 4 <= k < |ls| ==> ls[k] == BlackList(k - 4);
    ls
  }

  /** The objects of the lists `ls`, list after list, each head first. */
  function Drain(st: Gc, ls: seq<Loc>): seq<Id>
    requires forall l :: l in ls ==> l in st.lists
  {
    if ls == [] then [] else st.lists[ls[0]] + Drain(st, ls[1..])
  }

  /** Draining distinct lists meets each object of those lists once. */
  lemma {:induction false} DrainHolds(st: Gc, ls: seq<Loc>)
    requires WellFormed(st) && NoDup(ls) && forall l :: l in ls ==> l in st.lists
    ensures NoDup(Drain(st, ls))
    ensures forall x :: x in Drain(st, ls) <==> x in st.objs && st.objs[x].link in ls
    decreases |ls|
  {
    if ls != [] {
      TailNoDup(ls);
      DrainHolds(st, ls[1..]);
      var a, b := st.lists[ls[0]], Drain(st, ls[1..]);
      forall x | x in a ensures x !in b {
        assert LinkIs(st, x, ls[0]);
      }
      ConcatNoDup(a, b);
      forall x | x in st.objs && st.objs[x].link in ls ensures x in a + b {
        assert x in st.lists[st.objs[x].link];
      }
    }
  }

  /** gc_destroy: every list is drained, transparent first and the black
      lists last, each object handed to its finalizer and freed. The list
      heads and the generation table are freed as well, so no heap is left;
      what remains is the finalizer log. */
  function Destroy(st: Gc): (log: seq<Id>)
    requires WellFormed(st)
    ensures |log| == |st.finalized| + |st.objs| && log[..|st.finalized|] == st.finalized
    ensures forall x :: x in log[|st.finalized|..] <==> x in st.objs
  {
    DrainCovers(st);
    var log := st.finalized + Drain(st, DrainOrder(st.gens));
    assert log[|st.finalized|..] == Drain(st, DrainOrder(st.gens));
    log
  }

  /** Draining every list in gc_destroy's order visits each managed object
      exactly once. */
  lemma DrainCovers(st: Gc)
    requires WellFormed(st)
    ensures NoDup(Drain(st, DrainOrder(st.gens)))
    ensures forall x :: x in Drain(st, DrainOrder(st.gens)) <==> x in st.objs
    ensures |Drain(st, DrainOrder(st.gens))| == |st.objs|
  {
    var ls := DrainOrder(st.gens);
    var d := Drain(st, ls);
    DrainHolds(st, ls);
    assert forall x :: x in d <==> x in st.objs;
    NoDupCard(d);
    assert Members(d) == st.objs.Keys;
  }

  /** gc_destroy hands each managed object to the finalizer once, and none
      that was finalized before. */
  lemma DestroyFinalizesAll(st: Gc)
    requires Inv(st)
    ensures NoDup(Destroy(st))
    ensures forall x :: x in st.finalized ==> x !in Destroy(st)[|st.finalized|..]
  {
    var d := Drain(st, DrainOrder(st.gens));
    DrainCovers(st);
    assert Destroy(st) == st.finalized + d;
    assert Destroy(st)[|st.finalized|..] == d;
    ConcatNoDup(st.finalized, d);
  }

  /** After gc_destroy every id ever allocated has been finalized exactly
      once. */
  lemma DestroyAccounts(st: Gc)
    requires Inv(st)
    ensures NoDup(Destroy(st)) && |Destroy(st)| == st.nextId
    ensures forall x: Id :: x in Destroy(st) <==> x < st.nextId
  {
    DestroyFinalizesAll(st);
    var f := Destroy(st);
    forall x | x in f ensures x < st.nextId {
      var k :| 0 <= k < |f| && f[k] == x;
      if k < |st.finalized| {
        assert f[..|st.finalized|][k] == x;
      } else {
        assert f[|st.finalized|..][k - |st.finalized|] == x;
      }
    }
    forall x: Id | x < st.nextId ensures x in f {
      if x !in f {
        var rest := Below(st.nextId) - {x};
        assert |rest| == st.nextId - 1;
        assert forall y :: y in f ==> y in rest;
        NoDupBound(f, rest);
      }
    }
  }

  /** The ids below `n`. */
  function Below(n: nat): (b: set<Id>)
    ensures forall x: Id :: x in b <==> x < n
    ensures |b| == n
  {
    if n == 0 then {}
    else
      var below := Below(n - 1);
      assert n - 1 !in below;
      below + {n - 1}
  }

  // ---------------------------------------------------------------------
  // gc_alloc.

  datatype Allocated = Allocated(st: Gc, obj: Id)

  /** gc_alloc: a fresh object with mark word 0 (white, generation 0, no
      roots) and `n` null slots, at the head of the white list. */
  function Alloc(st: Gc, n: nat): (r: Allocated)
    requires WhiteList in st.lists && Accounted(st) && n < MaxSlots
    ensures r.obj !in st.objs && r.obj == st.nextId && r.st.nextId == st.nextId + 1
    ensures r.st.objs.Keys == st.objs.Keys + {r.obj}
    ensures r.st.objs[r.obj].link == WhiteList && r.st.objs[r.obj].mark == Mark(0, White, 0)
    ensures |r.st.objs[r.obj].slots| == n && forall k :: 0 <= k < n ==> r.st.objs[r.obj].slots[k] == Null
    ensures forall y :: y in st.objs ==> r.st.objs[y] == st.objs[y]
    ensures r.st.lists.Keys == st.lists.Keys && r.st.lists[WhiteList] == [r.obj] + st.lists[WhiteList]
    ensures forall l :: l != WhiteList ==> At(r.st, l) == At(st, l)
    ensures r.st.gens == st.gens && r.st.pauseThreshold == st.pauseThreshold && r.st.finalized == st.finalized
  {
    var x := st.nextId;
    var o := Object(WhiteList, Decode(0), seq(n, _ => Null));
    Allocated(st.(objs := st.objs[x := o], lists := st.lists[WhiteList := Add(st.lists[WhiteList], x)], nextId := x + 1), x)
  }

  /** The fresh object heads the white list, the only list that changes. */
  lemma AllocWellFormed(st: Gc, n: nat)
    requires WellFormed(st) && Accounted(st) && n < MaxSlots
    ensures WellFormed(Alloc(st, n).st)
  {
    var a := Alloc(st, n);
    var r, x := a.st, a.obj;
    assert x !in st.objs;
    assert !LinkIs(st, x, WhiteList);
    AddNoDup(st.lists[WhiteList], x);
    forall l | l in r.lists ensures NoDup(r.lists[l]) {
      if l != WhiteList { assert r.lists[l] == st.lists[l]; }
    }
    forall l, y | l in r.lists && y in r.lists[l] ensures LinkIs(r, y, l) {
      if y != x {
        assert y in st.lists[l];
        assert LinkIs(st, y, l);
      }
    }
    forall y | y in r.objs ensures r.objs[y].link in r.lists && y in r.lists[r.objs[y].link] {
      if y != x { assert y in st.lists[st.objs[y].link]; }
    }
    forall y | y in r.objs ensures Agrees(r.objs[y], r.gens) {
      if y != x { assert r.objs[y] == st.objs[y]; }
    }
  }

  /** The fresh id is counted as allocated and was never handed out before. */
  lemma AllocAccounted(st: Gc, n: nat)
    requires WellFormed(st) && Accounted(st) && n < MaxSlots
    ensures Accounted(Alloc(st, n).st)
  {
    var r := Alloc(st, n).st;
    assert st.nextId !in st.objs;
    assert r.objs.Keys == st.objs.Keys + {st.nextId};
  }

  /** A fresh white object keeps the invariant: nothing refers to it yet. */
  lemma AllocInv(st: Gc, n: nat)
    requires Inv(st) && n < MaxSlots
    ensures Inv(Alloc(st, n).st)
  {
    AllocWellFormed(st, n);
    AllocAccounted(st, n);
    var a := Alloc(st, n);
    var r, x := a.st, a.obj;
    forall y, t | Live(r, y) && Ptr(t) in r.objs[y].slots ensures Live(r, t) {
      assert y != x by {
        assert forall k :: 0 <= k < n ==> r.objs[x].slots[k] == Null;
      }
      assert r.objs[y] == st.objs[y] && Live(st, y);
      assert Live(st, t) && r.objs[t] == st.objs[t];
    }
    forall y, t | y in r.objs && r.objs[y].link.BlackList? && Ptr(t) in r.objs[y].slots
      ensures !LinkIs(r, t, WhiteList)
    {
      assert y != x && Live(st, y) && Live(st, t);
    }
  }

  /** The harness mirrors gc_alloc with a new object of no roots and empty
      slots; allocation changes nothing about what else is reachable, and the
      new object is not reachable until something refers to it. */
  lemma AllocReach(st: Gc, n: nat)
    requires Inv(st) && n < MaxSlots
    ensures View(Alloc(st, n).st) == View(st)[Alloc(st, n).obj := Node(0, seq(n, _ => Null))]
    ensures forall y :: Reachable(View(Alloc(st, n).st), y) <==> Reachable(View(st), y)
    ensures !Reachable(View(Alloc(st, n).st), Alloc(st, n).obj)
  {
    var a := Alloc(st, n);
    var g, x := View(st), a.obj;
    ViewOne(st, a.st, x, Node(0, seq(n, _ => Null)));
    forall y, t | y in g && Reachable(g, y) && Ptr(t) in g[y].slots ensures t in g {
      LiveReach(st, y);
      assert Ptr(t) in st.objs[y].slots && Live(st, t);
    }
    AddUnreached(g, x, Node(0, seq(n, _ => Null)));
  }

  // ---------------------------------------------------------------------
  // gc_add_root and gc_remove_root.

  /** A step that changes only the mark of `x`, to one that still agrees
      with its list, keeps the invariant. */
  lemma RemarkInv(st: Gc, r: Gc, x: Id)
    requires Inv(st) && x in st.objs
    requires r.gens == st.gens && r.lists == st.lists && r.objs.Keys == st.objs.Keys
    requires r.nextId == st.nextId && r.finalized == st.finalized
    requires forall y :: y in st.objs && y != x ==> r.objs[y] == st.objs[y]
    requires r.objs[x].link == st.objs[x].link && r.objs[x].slots == st.objs[x].slots
    requires Agrees(r.objs[x], r.gens)
    ensures Inv(r)
  {
    RetouchWellFormed(st, r, x);
    forall y, t | Live(r, y) && Ptr(t) in r.objs[y].slots ensures Live(r, t) {
      assert r.objs[y].slots == st.objs[y].slots && Live(st, y);
      assert Live(st, t) && r.objs[t].link == st.objs[t].link;
    }
    forall y, t | y in r.objs && r.objs[y].link.BlackList? && Ptr(t) in r.objs[y].slots
      ensures !LinkIs(r, t, WhiteList)
    {
      assert !LinkIs(st, t, WhiteList);
    }
  }

  /** gc_add_root: one more root; a white or silver object is moved to the
      grey list and coloured grey, a grey or black one stays where it is. */
  function AddRoot(st: Gc, x: Id): (r: Gc)
    requires WellFormed(st) && Live(st, x) && st.objs[x].mark.roots + 1 < MaxRoots
    ensures r.objs.Keys == st.objs.Keys && r.lists.Keys == st.lists.Keys
    ensures r.gens == st.gens && r.nextId == st.nextId && r.finalized == st.finalized
    ensures forall y :: y in st.objs && y != x ==> r.objs[y] == st.objs[y]
    ensures r.objs[x].slots == st.objs[x].slots
    ensures r.objs[x].mark.roots == st.objs[x].mark.roots + 1 && r.objs[x].mark.gen == st.objs[x].mark.gen
    ensures Pale(st, x) ==> r.objs[x].link == GreyList && r.objs[x].mark.color == Grey
    ensures Pale(st, x) ==> r.lists[GreyList] == [x] + st.lists[GreyList]
    ensures Pale(st, x) ==> forall y :: y in r.lists[st.objs[x].link] <==> y in st.lists[st.objs[x].link] && y != x
    ensures Pale(st, x) ==> forall l :: l != GreyList && l != st.objs[x].link ==> At(r, l) == At(st, l)
    ensures !Pale(st, x) ==> r.lists == st.lists && r.objs[x].link == st.objs[x].link
    ensures !Pale(st, x) ==> r.objs[x].mark.color == st.objs[x].mark.color
  {
    var o := st.objs[x];
    assert Agrees(o, st.gens);
    var m := WithRoot(o.mark);
    if PaleMark(m) then
      MoveLists(st, x, GreyList, Greyed(m));
      Move(st, x, GreyList, Greyed(m))
    else
      st.(objs := st.objs[x := o.(mark := m)])
  }

  /** gc_add_root keeps the invariant. */
  lemma AddRootInv(st: Gc, x: Id)
    requires Inv(st) && Live(st, x) && st.objs[x].mark.roots + 1 < MaxRoots
    ensures Inv(AddRoot(st, x))
  {
    var r := AddRoot(st, x);
    var o := st.objs[x];
    assert Agrees(o, st.gens);
    var m := WithRoot(o.mark);
    if PaleMark(m) {
      assert Agrees(Object(GreyList, Greyed(m), o.slots), st.gens);
      MoveWellFormed(st, x, GreyList, Greyed(m));
      MoveSlotsOk(st, x, GreyList, Greyed(m));
      MoveAccounted(st, x, GreyList, Greyed(m));
    } else {
      RemarkInv(st, r, x);
    }
  }

  /** gc_add_root changes reachability exactly as the harness's
      inc_root_ref_count does: the object is now reachable, and so is
      everything that was. */
  lemma AddRootReach(st: Gc, x: Id)
    requires WellFormed(st) && Live(st, x) && st.objs[x].mark.roots + 1 < MaxRoots
    ensures View(AddRoot(st, x)) == View(st)[x := Node(st.objs[x].mark.roots + 1, st.objs[x].slots)]
    ensures Reachable(View(AddRoot(st, x)), x)
    ensures forall y :: Reachable(View(st), y) ==> Reachable(View(AddRoot(st, x)), y)
  {
    var n := Node(st.objs[x].mark.roots + 1, st.objs[x].slots);
    ViewOne(st, AddRoot(st, x), x, n);
    RerootReach(View(st), x, n);
  }

  /** gc_remove_root: one root fewer, unless the count is already zero;
      nothing else changes, the object stays on its list. */
  function RemoveRoot(st: Gc, x: Id): (r: Gc)
    requires WellFormed(st) && x in st.objs
    ensures r.objs.Keys == st.objs.Keys && r.lists == st.lists
    ensures r.gens == st.gens && r.nextId == st.nextId && r.finalized == st.finalized
    ensures forall y :: y in st.objs && y != x ==> r.objs[y] == st.objs[y]
    ensures r.objs[x].link == st.objs[x].link && r.objs[x].slots == st.objs[x].slots
    ensures r.objs[x].mark.color == st.objs[x].mark.color && r.objs[x].mark.gen == st.objs[x].mark.gen
    ensures st.objs[x].mark.roots > 0 ==> r.objs[x].mark.roots + 1 == st.objs[x].mark.roots
    ensures st.objs[x].mark.roots == 0 ==> r == st
  {
    var o := st.objs[x];
    assert Agrees(o, st.gens);
    if HasRoots(o.mark) then st.(objs := st.objs[x := o.(mark := WithoutRoot(o.mark))]) else st
  }

  /** gc_remove_root keeps the invariant. */
  lemma RemoveRootInv(st: Gc, x: Id)
    requires Inv(st) && x in st.objs
    ensures Inv(RemoveRoot(st, x))
  {
    assert Agrees(st.objs[x], st.gens);
    if st.objs[x].mark.roots > 0 {
      RemarkInv(st, RemoveRoot(st, x), x);
    }
  }

  /** gc_remove_root mirrors the harness's dec_root_ref_count where the
      harness accepts the call; where the harness refuses it (no root to
      remove) the collector changes nothing. Either way nothing becomes
      reachable. */
  lemma RemoveRootReach(st: Gc, x: Id)
    requires WellFormed(st) && x in st.objs
    ensures DropRoot(View(st)[x]).Refused? ==> RemoveRoot(st, x) == st
    ensures DropRoot(View(st)[x]).Done? ==> View(RemoveRoot(st, x)) == View(st)[x := DropRoot(View(st)[x]).node]
    ensures forall y :: Reachable(View(RemoveRoot(st, x)), y) ==> Reachable(View(st), y)
  {
    if st.objs[x].mark.roots > 0 {
      var n := DropRoot(View(st)[x]).node;
      ViewOne(st, RemoveRoot(st, x), x, n);
      RerootReach(View(st), x, n);
    }
  }

  // ---------------------------------------------------------------------
  // gc_set_ref and its write barrier.

  /** gc_set_ref: slot `i` of `x` now holds `ref`. A black object that is
      written to becomes grey again and moves to the grey list, so the mark
      phase rescans it; an object of any other colour stays as it is. */
  function SetRef(st: Gc, x: Id, i: nat, ref: Ref): (r: Gc)
    requires WellFormed(st) && Live(st, x) && i < |st.objs[x].slots|
    ensures r.objs.Keys == st.objs.Keys && r.lists.Keys == st.lists.Keys
    ensures r.gens == st.gens && r.nextId == st.nextId && r.finalized == st.finalized
    ensures forall y :: y in st.objs && y != x ==> r.objs[y] == st.objs[y]
    ensures r.objs[x].slots == st.objs[x].slots[i := ref]
    ensures st.objs[x].link.BlackList? ==> r.objs[x].link == GreyList && r.objs[x].mark == st.objs[x].mark.(color := Grey)
    ensures st.objs[x].link.BlackList? ==> r.lists[GreyList] == [x] + st.lists[GreyList]
    ensures st.objs[x].link.BlackList? ==> forall l :: l != GreyList && l != st.objs[x].link ==> At(r, l) == At(st, l)
    ensures !st.objs[x].link.BlackList? ==> r.lists == st.lists && r.objs[x].link == st.objs[x].link
    ensures !st.objs[x].link.BlackList? ==> r.objs[x].mark == st.objs[x].mark
  {
    var o := st.objs[x];
    assert Agrees(o, st.gens);
    var written := st.(objs := st.objs[x := o.(slots := o.slots[i := ref])]);
    if BlackMark(o.mark) then
      RetouchWellFormed(st, written, x);
      MoveLists(written, x, GreyList, Greyed(o.mark));
      Move(written, x, GreyList, Greyed(o.mark))
    else
      written
  }

  /** The object written to stays on a list that agrees with its mark. */
  lemma SetRefWellFormed(st: Gc, x: Id, i: nat, ref: Ref)
    requires WellFormed(st) && Accounted(st) && Live(st, x) && i < |st.objs[x].slots|
    ensures WellFormed(SetRef(st, x, i, ref)) && Accounted(SetRef(st, x, i, ref))
  {
    var o := st.objs[x];
    assert Agrees(o, st.gens);
    var written := st.(objs := st.objs[x := o.(slots := o.slots[i := ref])]);
    RetouchWellFormed(st, written, x);
    if BlackMark(o.mark) {
      assert Agrees(Object(GreyList, Greyed(o.mark), written.objs[x].slots), st.gens);
      MoveWellFormed(written, x, GreyList, Greyed(o.mark));
      MoveAccounted(written, x, GreyList, Greyed(o.mark));
    }
  }

  /** Storing a live target into a live object keeps the slot invariant,
      provided the object is not left black. */
  lemma StoreSlotsOk(st: Gc, r: Gc, x: Id, i: nat, ref: Ref)
    requires SlotsOk(st) && Live(st, x) && i < |st.objs[x].slots|
    requires ref.Ptr? ==> Live(st, ref.id)
    requires r.objs.Keys == st.objs.Keys
    requires forall y :: y in st.objs && y != x ==> r.objs[y] == st.objs[y]
    requires r.objs[x].slots == st.objs[x].slots[i := ref]
    requires r.objs[x].link == st.objs[x].link || r.objs[x].link == GreyList
    requires !r.objs[x].link.BlackList?
    ensures SlotsOk(r)
  {
    var o := st.objs[x];
    forall y, t | Live(r, y) && Ptr(t) in r.objs[y].slots ensures Live(r, t) {
      if y == x && Ptr(t) !in o.slots {
        var k :| 0 <= k < |o.slots| && r.objs[x].slots[k] == Ptr(t);
        assert k == i && ref == Ptr(t);
      } else {
        assert Ptr(t) in st.objs[y].slots && Live(st, y);
      }
      assert Live(st, t);
      assert t != x ==> r.objs[t] == st.objs[t];
    }
    forall y, t | y in r.objs && r.objs[y].link.BlackList? && Ptr(t) in r.objs[y].slots
      ensures !LinkIs(r, t, WhiteList)
    {
      assert y != x && r.objs[y] == st.objs[y];
      assert !LinkIs(st, t, WhiteList);
      assert LinkIs(r, t, WhiteList) ==> LinkIs(st, t, WhiteList);
    }
  }

  /** The write barrier keeps the invariant: an object that might now refer
      to a white one is no longer black. */
  lemma SetRefInv(st: Gc, x: Id, i: nat, ref: Ref)
    requires Inv(st) && Live(st, x) && i < |st.objs[x].slots|
    requires ref.Ptr? ==> Live(st, ref.id)
    ensures Inv(SetRef(st, x, i, ref))
  {
    SetRefWellFormed(st, x, i, ref);
    StoreSlotsOk(st, SetRef(st, x, i, ref), x, i, ref);
  }

  /** gc_set_ref changes reachability exactly as the harness's set_ref does;
      storing into a reachable object makes the stored target reachable. */
  lemma SetRefReach(st: Gc, x: Id, i: nat, ref: Ref)
    requires Inv(st) && Live(st, x) && i < |st.objs[x].slots|
    requires ref.Ptr? ==> Live(st, ref.id)
    ensures SetSlot(View(st)[x], i, ref).Done?
    ensures View(SetRef(st, x, i, ref)) == View(st)[x := SetSlot(View(st)[x], i, ref).node]
    ensures Reachable(View(st), x) ==> Reachable(View(SetRef(st, x, i, ref)), x)
    ensures Reachable(View(st), x) && ref.Ptr? ==> Reachable(View(SetRef(st, x, i, ref)), ref.id)
  {
    var r := SetRef(st, x, i, ref);
    var g := View(st);
    ViewOne(st, r, x, SetSlot(g[x], i, ref).node);
    if Reachable(g, x) {
      StoreReach(g, x, i, ref);
    }
  }

  // ---------------------------------------------------------------------
  // gc_contains.

  /** Walks one list from its head looking for `x`. */
  method Scan(l: seq<Id>, x: Id) returns (found: bool)
    ensures found <==> x in l
  {
    found := false;
    var i := 0;
    while i < |l| && !found
      invariant i <= |l|
      invariant found <==> x in l[..i]
    {
      found := l[i] == x;
      assert l[..i + 1] == l[..i] + [l[i]];
      i := i + 1;
    }
    assert !found ==> l[..i] == l;
  }

  /** gc_contains: searches white, silver, grey and then each black list,
      but not transparent, so it reports exactly the live objects. */
  method Contains(st: Gc, x: Id) returns (found: bool)
    requires WellFormed(st)
    ensures found <==> Live(st, x)
  {
    found := Scan(st.lists[WhiteList], x);
    if !found {
      found := Scan(st.lists[SilverList], x);
    }
    if !found {
      found := Scan(st.lists[GreyList], x);
    }
    var g := 0;
    while g < st.gens && !found
      invariant g <= st.gens
      invariant !found ==> x !in st.lists[WhiteList] && x !in st.lists[SilverList] && x !in st.lists[GreyList]
      invariant !found ==> forall h :: 0 <= h < g ==> x !in st.lists[BlackList(h)]
      invariant found ==> Live(st, x)
    {
      found := Scan(st.lists[BlackList(g)], x);
      g := g + 1;
    }
    if !found && x in st.objs {
      assert x in st.lists[st.objs[x].link];
    }
  }

  // ---------------------------------------------------------------------
  // The harness's name table.

  /** After a collection the harness keeps only the names of objects its
      oracle found reachable. Each kept name denotes a live object, so the
      calls the harness makes on kept names meet the liveness the calls
      above require. */
  lemma KeptNamesLive(st: Gc, names: map<nat, Id>, black: seq<Id>)
    requires Inv(st)
    requires forall x :: x in black <==> x in View(st) && Reachable(View(st), x)
    ensures forall n :: n in KeepSurvivors(names, black) ==> Live(st, KeepSurvivors(names, black)[n])
  {
    var kept := KeepSurvivors(names, black);
    forall n | n in kept ensures Live(st, kept[n]) {
      LiveReach(st, kept[n]);
    }
  }
}

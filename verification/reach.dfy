/** Reachability, and the test harness's survivor oracle.

    The harness mirrors every collector call on plain objects that hold a
    root count and their slot contents, and computes the objects that ought
    to survive a full collection: those reachable from an object whose root
    count is positive. `Reachable` is that notion as a path; `Survivors` is
    the harness's worklist computation of it. */
module Reach {
  import opened Lists

  type Id = nat

  /** A reference slot: empty, or naming a managed object. */
  datatype Ref = Null | Ptr(id: Id)

  /** What reachability sees of an object: its root count and its slots. */
  datatype Node = Node(roots: nat, slots: seq<Ref>)

  type Graph = map<Id, Node>

  predicate Rooted(g: Graph, x: Id) {
    x in g && g[x].roots > 0
  }

  /** Every non-empty slot of every node names a node of the graph. */
  ghost predicate Closed(g: Graph) {
    forall x, k :: x in g && 0 <= k < |g[x].slots| && g[x].slots[k].Ptr? ==> g[x].slots[k].id in g
  }

  /** A chain of slot references that starts at a rooted node. */
  ghost predicate IsPath(g: Graph, p: seq<Id>) {
    && |p| > 0
    && (forall k :: 0 <= k < |p| ==> p[k] in g)
    && g[p[0]].roots > 0
    && (forall k :: 0 <= k < |p| - 1 ==> Ptr(p[k + 1]) in g[p[k]].slots)
  }

  ghost predicate Reachable(g: Graph, x: Id) {
    exists p :: IsPath(g, p) && p[|p| - 1] == x
  }

  /** A path in `g` stays a path in `h` when every node of `g` is in `h`
      with the same slots and no fewer roots: reachability only grows. */
  lemma ReachMono(g: Graph, h: Graph, x: Id)
    requires forall y :: y in g ==> y in h && h[y].slots == g[y].slots && (g[y].roots > 0 ==> h[y].roots > 0)
    requires Reachable(g, x)
    ensures Reachable(h, x)
  {
    var p :| IsPath(g, p) && p[|p| - 1] == x;
    assert IsPath(h, p);
  }

  /** Changing only the root count of `x` moves reachability in the same
      direction as the count. */
  lemma RerootReach(g: Graph, x: Id, n: Node)
    requires x in g && n.slots == g[x].slots
    ensures n.roots >= g[x].roots ==> forall y :: Reachable(g, y) ==> Reachable(g[x := n], y)
    ensures n.roots <= g[x].roots ==> forall y :: Reachable(g[x := n], y) ==> Reachable(g, y)
    ensures n.roots > 0 ==> Reachable(g[x := n], x)
  {
    var h := g[x := n];
    if n.roots >= g[x].roots {
      forall y | Reachable(g, y) ensures Reachable(h, y) {
        ReachMono(g, h, y);
      }
    }
    if n.roots <= g[x].roots {
      forall y | Reachable(h, y) ensures Reachable(g, y) {
        ReachMono(h, g, y);
      }
    }
    if n.roots > 0 {
      RootReachable(h, x);
    }
  }

  /** Adding an unrooted node that no reachable node refers to (every
      reachable node refers only to nodes already present) leaves
      reachability unchanged. */
  lemma AddUnreached(g: Graph, x: Id, n: Node)
    requires x !in g && n.roots == 0
    requires forall y, t :: y in g && Reachable(g, y) && Ptr(t) in g[y].slots ==> t in g
    ensures forall y :: Reachable(g[x := n], y) <==> Reachable(g, y)
  {
    var h := g[x := n];
    var before := set y | y in g && Reachable(g, y);
    forall y | Rooted(h, y) ensures y in before {
      RootReachable(g, y);
    }
    forall y, k | y in before && y in h && 0 <= k < |h[y].slots| && h[y].slots[k].Ptr?
      ensures h[y].slots[k].id in before
    {
      var t := h[y].slots[k].id;
      assert Ptr(t) in g[y].slots;
      ReachStep(g, y, t);
    }
    forall y | Reachable(h, y) ensures Reachable(g, y) {
      ClosedSetHoldsReachable(h, before, y);
    }
    forall y | Reachable(g, y) ensures Reachable(h, y) {
      ReachMono(g, h, y);
    }
  }

  /** Storing into slot `i` of a reachable node keeps it reachable and makes
      the stored target reachable. */
  lemma StoreReach(g: Graph, x: Id, i: nat, ref: Ref)
    requires x in g && i < |g[x].slots| && Reachable(g, x)
    ensures Reachable(g[x := g[x].(slots := g[x].slots[i := ref])], x)
    ensures ref.Ptr? && ref.id in g ==> Reachable(g[x := g[x].(slots := g[x].slots[i := ref])], ref.id)
  {
    var h := g[x := g[x].(slots := g[x].slots[i := ref])];
    var p :| IsPath(g, p) && p[|p| - 1] == x;
    var k := IndexOf(p, x);
    var q := p[..k + 1];
    assert IsPath(h, q) by {
      forall j | 0 <= j < |q| - 1 ensures Ptr(q[j + 1]) in h[q[j]].slots {
        assert q[j] == p[j] && p[j] != x;
      }
    }
    if ref.Ptr? && ref.id in g {
      assert h[x].slots[i] == ref;
      ReachStep(h, x, ref.id);
    }
  }

  /** `s` holds every rooted node and every node a member of `s` refers to. */
  ghost predicate RootedClosed(g: Graph, s: set<Id>) {
    && (forall x :: Rooted(g, x) ==> x in s)
    && (forall x, k :: x in s && x in g && 0 <= k < |g[x].slots| && g[x].slots[k].Ptr? ==> g[x].slots[k].id in s)
  }

  lemma RootReachable(g: Graph, x: Id)
    requires Rooted(g, x)
    ensures Reachable(g, x)
  {
    assert IsPath(g, [x]);
  }

  /** A node referred to by a reachable node is reachable. */
  lemma ReachStep(g: Graph, x: Id, y: Id)
    requires Reachable(g, x) && y in g && Ptr(y) in g[x].slots
    ensures Reachable(g, y)
  {
    var p :| IsPath(g, p) && p[|p| - 1] == x;
    var q := p + [y];
    assert q[|q| - 2] == x;
    assert IsPath(g, q);
  }

  lemma {:induction false} PathInSet(g: Graph, s: set<Id>, p: seq<Id>, n: nat)
    requires RootedClosed(g, s) && IsPath(g, p) && n < |p|
    ensures p[n] in s
    decreases n
  {
    if n == 0 {
      assert Rooted(g, p[0]);
    } else {
      PathInSet(g, s, p, n - 1);
      var x := p[n - 1];
      assert Ptr(p[n]) in g[x].slots;
      var k :| 0 <= k < |g[x].slots| && g[x].slots[k] == Ptr(p[n]);
    }
  }

  /** Every reachable node lies in any set that holds the rooted nodes and is
      closed under references: reachability is the least such set. */
  lemma ClosedSetHoldsReachable(g: Graph, s: set<Id>, x: Id)
    requires RootedClosed(g, s) && Reachable(g, x)
    ensures x in s
  {
    var p :| IsPath(g, p) && p[|p| - 1] == x;
    PathInSet(g, s, p, |p| - 1);
  }

  /** Removing unreachable nodes (and keeping the others as they are) does
      not change what is reachable. */
  lemma RestrictReach(g: Graph, h: Graph)
    requires forall x :: x in h ==> x in g && h[x] == g[x]
    requires forall x :: x in g && x !in h ==> !Reachable(g, x)
    ensures forall x :: Reachable(h, x) <==> Reachable(g, x)
  {
    forall x | Reachable(h, x) ensures Reachable(g, x) {
      var p :| IsPath(h, p) && p[|p| - 1] == x;
      assert IsPath(g, p);
    }
    forall x | Reachable(g, x) ensures Reachable(h, x) {
      var p :| IsPath(g, p) && p[|p| - 1] == x;
      forall k | 0 <= k < |p| ensures p[k] in h {
        var q := p[..k + 1];
        assert IsPath(g, q) && q[|q| - 1] == p[k];
      }
      assert IsPath(h, p);
    }
  }

  /** A list without duplicates drawn from a set is no longer than the set. */
  lemma {:induction false} NoDupBound(s: seq<Id>, keys: set<Id>)
    requires NoDup(s) && forall x :: x in s ==> x in keys
    ensures |s| <= |keys|
  {
    if |s| > 0 {
      var t := s[1..];
      forall x | x in t ensures x in keys - {s[0]} {
        var j :| 0 <= j < |t| && t[j] == x;
        assert s[j + 1] == x;
      }
      assert NoDup(t) by {
        forall i, j | 0 <= i < j < |t| ensures t[i] != t[j] {
          assert t[i] == s[i + 1] && t[j] == s[j + 1];
        }
      }
      NoDupBound(t, keys - {s[0]});
    }
  }

  /** The outcome of a harness call that can refuse its input: the harness
      reports the bad line and stops. */
  datatype Checked = Refused | Done(node: Node)

  /** GCObject#set_ref: an index past the slot count is refused; otherwise
      slot `i` takes the new target, a nil target leaving the slot empty. */
  function SetSlot(n: Node, i: nat, ref: Ref): (r: Checked)
    ensures r.Refused? <==> i >= |n.slots|
    ensures r.Done? ==> r.node.roots == n.roots && |r.node.slots| == |n.slots| && r.node.slots[i] == ref
    ensures r.Done? ==> forall k :: 0 <= k < |n.slots| && k != i ==> r.node.slots[k] == n.slots[k]
  {
    if i < |n.slots| then Done(n.(slots := n.slots[i := ref])) else Refused
  }

  /** GCObject#dec_root_ref_count: a zero count is refused. */
  function DropRoot(n: Node): (r: Checked)
    ensures r.Refused? <==> n.roots == 0
    ensures r.Done? ==> r.node.slots == n.slots && r.node.roots + 1 == n.roots
  {
    if n.roots == 0 then Refused else Done(n.(roots := n.roots - 1))
  }

  /** The seeding loop of GCTest#gc: the rooted objects, in id order. */
  method RootedIds(g: Graph, bound: nat) returns (ids: seq<Id>)
    requires forall x :: x in g ==> x < bound
    ensures NoDup(ids)
    ensures forall x :: x in ids <==> Rooted(g, x)
  {
    ids := [];
    var i := 0;
    while i < bound
      invariant i <= bound
      invariant NoDup(ids)
      invariant forall x :: x in ids ==> x < i && Rooted(g, x)
      invariant forall x :: 0 <= x < i && Rooted(g, x) ==> x in ids
    {
      if i in g && g[i].roots > 0 {
        AppendNoDup(ids, i);
        ids := ids + [i];
      }
      i := i + 1;
    }
  }

  /** One pop of GCTest#gc: every object `r` refers to that is not yet a
      survivor is appended to both the survivors and the stack. */
  method PushReferents(g: Graph, r: Id, black: seq<Id>, grey: seq<Id>) returns (black': seq<Id>, grey': seq<Id>)
    requires Closed(g) && r in g
    requires NoDup(black) && NoDup(grey) && r in black && r !in grey
    requires forall x :: x in grey ==> x in black
    requires forall x :: x in black ==> x in g && Reachable(g, x)
    ensures NoDup(black') && NoDup(grey') && r !in grey'
    ensures forall x :: x in grey' ==> x in black'
    ensures forall x :: x in black' ==> x in g && Reachable(g, x)
    ensures forall x :: x in black ==> x in black'
    ensures forall x :: x in grey ==> x in grey'
    ensures forall x :: x in black' && x !in black ==> x in grey'
    ensures forall k :: 0 <= k < |g[r].slots| && g[r].slots[k].Ptr? ==> g[r].slots[k].id in black'
    ensures |black'| >= |black|
    ensures |black'| == |black| ==> grey' == grey
  {
    black', grey' := black, grey;
    var slots := g[r].slots;
    var j := 0;
    while j < |slots|
      invariant j <= |slots|
      invariant NoDup(black') && NoDup(grey') && r !in grey'
      invariant forall x :: x in grey' ==> x in black'
      invariant forall x :: x in black' ==> x in g && Reachable(g, x)
      invariant forall x :: x in black ==> x in black'
      invariant forall x :: x in grey ==> x in grey'
      invariant forall x :: x in black' && x !in black ==> x in grey'
      invariant forall k :: 0 <= k < j && slots[k].Ptr? ==> slots[k].id in black'
      invariant |black'| >= |black|
      invariant |black'| == |black| ==> grey' == grey
    {
      if slots[j].Ptr? && slots[j].id !in black' {
        var c := slots[j].id;
        assert c in g;
        ReachStep(g, r, c);
        AppendNoDup(grey', c);
        AppendNoDup(black', c);
        grey' := grey' + [c];
        black' := black' + [c];
      }
      j := j + 1;
    }
  }

  /** GCTest#gc: every rooted object (in id order) seeds both the survivor
      list and the stack; popping an object pushes each referenced object
      that is not yet a survivor. The harness iterates a slot hash; here the
      slots are visited in index order, which can change the order of the
      result but not its contents. */
  method Survivors(g: Graph, bound: nat) returns (black: seq<Id>)
    requires Closed(g)
    requires forall x :: x in g ==> x < bound
    ensures NoDup(black)
    ensures forall x :: Rooted(g, x) ==> x in black
    ensures forall x, k :: x in black && x in g && 0 <= k < |g[x].slots| && g[x].slots[k].Ptr? ==> g[x].slots[k].id in black
    ensures forall x :: x in black <==> x in g && Reachable(g, x)
  {
    black := RootedIds(g, bound);
    forall x | x in black ensures Reachable(g, x) {
      RootReachable(g, x);
    }
    var grey := black;
    while |grey| > 0
      invariant NoDup(black) && NoDup(grey)
      invariant forall x :: x in grey ==> x in black
      invariant forall x :: x in black ==> x in g && Reachable(g, x)
      invariant forall x :: Rooted(g, x) ==> x in black
      invariant forall x, k :: x in black && x in g && x !in grey && 0 <= k < |g[x].slots| && g[x].slots[k].Ptr? ==> g[x].slots[k].id in black
      decreases |g.Keys| - |black|, |grey|
    {
      NoDupBound(black, g.Keys);
      var r := grey[|grey| - 1];
      var popped := grey[..|grey| - 1];
      assert r !in popped by {
        forall j | 0 <= j < |popped| ensures popped[j] != r {
          assert popped[j] == grey[j];
        }
      }
      assert NoDup(popped) by {
        forall i, j | 0 <= i < j < |popped| ensures popped[i] != popped[j] {
          assert popped[i] == grey[i] && popped[j] == grey[j];
        }
      }
      assert forall x :: x in grey ==> x in popped || x == r by {
        forall x | x in grey ensures x in popped || x == r {
          var j :| 0 <= j < |grey| && grey[j] == x;
          if j < |popped| { assert popped[j] == x; }
        }
      }
      assert forall x :: x in popped ==> x in grey;
      black, grey := PushReferents(g, r, black, popped);
      NoDupBound(black, g.Keys);
    }
    var closure := set x | x in black;
    assert RootedClosed(g, closure);
    forall x | x in g && Reachable(g, x) ensures x in black {
      ClosedSetHoldsReachable(g, closure, x);
    }
  }

  lemma AppendNoDup(s: seq<Id>, x: Id)
    requires NoDup(s) && x !in s
    ensures NoDup(s + [x])
  {
    var t := s + [x];
    forall a, b | 0 <= a < b < |t| ensures t[a] != t[b] {
      assert t[a] == s[a];
    }
  }

  /** `objs_to_remove.keep_if`: the harness's live-name table keeps exactly
      the names whose object survived. */
  function KeepSurvivors(names: map<nat, Id>, black: seq<Id>): (r: map<nat, Id>)
    ensures forall n :: n in r <==> n in names && names[n] in black
    ensures forall n :: n in r ==> r[n] == names[n]
  {
    map n | n in names && names[n] in black :: names[n]
  }
}

/** The intrusive list engine.

    A list is read as the sequence of objects met from its head pointer by
    following the `gc_next` links, head first. The back-pointer each object
    keeps to the slot that points at it is what lets the collector unlink an
    object without a search; here the same effect is had by naming the
    object, and which list holds it is recorded by the caller. */
module Lists {

  /** No object is linked into a list twice. */
  predicate NoDup<T(==)>(l: seq<T>) {
    forall i, j :: 0 <= i < j < |l| ==> l[i] != l[j]
  }

  /** gc_list_add: the object becomes the new head. */
  function Add<T>(l: seq<T>, x: T): seq<T> {
    [x] + l
  }

  /** Position of the first occurrence of `x`. */
  function IndexOf<T(==)>(l: seq<T>, x: T): (i: nat)
    requires x in l
    ensures i < |l| && l[i] == x
    ensures forall k :: 0 <= k < i ==> l[k] != x
  {
    if l[0] == x then 0 else 1 + IndexOf(l[1..], x)
  }

  /** gc_list_remove: unlinks `x`; the objects before and after it stay in order. */
  function Remove<T(==)>(l: seq<T>, x: T): (r: seq<T>)
    ensures multiset(r) == multiset(l) - multiset{x}
    ensures x in l ==> |r| == |l| - 1
  {
    if x in l then
      var i := IndexOf(l, x);
      assert l == l[..i] + [x] + l[i + 1..];
      l[..i] + l[i + 1..]
    else l
  }

  /** gc_list_move_all: the whole of `from` is spliced in front of `to`
      (the C code walks `from` to its tail and links the tail to the old
      head of `to`), and `from` is left empty. The C code dereferences the
      head of `from`, so it must not be empty. */
  function MoveAll<T>(from: seq<T>, to: seq<T>): (r: (seq<T>, seq<T>))
    requires |from| > 0
    ensures r.0 == []
    ensures |r.1| == |from| + |to| && r.1[..|from|] == from && r.1[|from|..] == to
  {
    ([], from + to)
  }

  /** Unlinking from a list without duplicates removes exactly `x` and keeps
      the list free of duplicates. */
  lemma RemoveNoDup<T>(l: seq<T>, x: T)
    requires NoDup(l)
    ensures NoDup(Remove(l, x))
    ensures x !in Remove(l, x)
    ensures forall y :: y in Remove(l, x) <==> y in l && y != x
    ensures x in l ==> |Remove(l, x)| == |l| - 1
  {
    if x in l {
      DropAt(l, IndexOf(l, x));
    }
  }

  /** Cutting position `i` out of a list without duplicates removes exactly
      the object at `i`. */
  lemma DropAt<T>(l: seq<T>, i: nat)
    requires NoDup(l) && i < |l|
    ensures NoDup(l[..i] + l[i + 1..])
    ensures forall y :: y in l[..i] + l[i + 1..] <==> y in l && y != l[i]
  {
    var r := l[..i] + l[i + 1..];
    assert forall k :: 0 <= k < |r| ==> r[k] == l[if k < i then k else k + 1];
    forall y | y in l && y != l[i] ensures y in r {
      var k :| 0 <= k < |l| && l[k] == y;
      if k < i { assert r[k] == y; } else { assert r[k - 1] == y; }
    }
  }

  /** Adding a new head to a list without duplicates keeps it so. */
  lemma AddNoDup<T>(l: seq<T>, x: T)
    requires NoDup(l) && x !in l
    ensures NoDup(Add(l, x))
  {
    var r := Add(l, x);
    forall a, b | 0 <= a < b < |r|
      ensures r[a] != r[b]
    {
      assert r[b] == l[b - 1];
      if a > 0 { assert r[a] == l[a - 1]; }
    }
  }

  /** Adding and then unlinking the same object gives the original list back. */
  lemma RemoveAfterAdd<T>(l: seq<T>, x: T)
    ensures Remove(Add(l, x), x) == l
  {
    assert Add(l, x)[0] == x;
  }

  /** Dropping the head of a list without duplicates leaves a list without
      duplicates that no longer holds the head. */
  lemma TailNoDup<T>(t: seq<T>)
    requires NoDup(t) && |t| > 0
    ensures NoDup(t[1..]) && t[0] !in t[1..]
    ensures forall y :: y in t ==> y == t[0] || y in t[1..]
  {
    forall i, j | 0 <= i < j < |t| - 1 ensures t[1..][i] != t[1..][j] {
      assert t[1..][i] == t[i + 1] && t[1..][j] == t[j + 1];
    }
    forall i | 0 <= i < |t| - 1 ensures t[1..][i] != t[0] {
      assert t[1..][i] == t[i + 1];
    }
    assert t == [t[0]] + t[1..];
  }

  /** The objects a list holds. */
  function Members<T(!new)>(s: seq<T>): (m: set<T>)
    ensures forall x :: x in m <==> x in s
  {
    set x | x in s
  }

  /** A list without duplicates has as many elements as it holds objects. */
  lemma {:induction false} NoDupCard<T(!new)>(s: seq<T>)
    requires NoDup(s)
    ensures |Members(s)| == |s|
  {
    if s != [] {
      TailNoDup(s);
      NoDupCard(s[1..]);
      assert Members(s) == Members(s[1..]) + {s[0]};
    }
  }

  /** Joining two disjoint lists without duplicates gives a list without
      duplicates. */
  lemma ConcatNoDup<T>(a: seq<T>, b: seq<T>)
    requires NoDup(a) && NoDup(b) && forall x :: x in a ==> x !in b
    ensures NoDup(a + b)
  {
    var r := a + b;
    forall i, j | 0 <= i < j < |r|
      ensures r[i] != r[j]
    {
      if j < |a| {
        assert r[i] == a[i] && r[j] == a[j];
      } else if i >= |a| {
        assert r[i] == b[i - |a|] && r[j] == b[j - |a|];
      } else {
        assert r[i] == a[i] && r[j] == b[j - |a|];
        assert r[i] in a;
      }
    }
  }

  /** Splicing two disjoint lists without duplicates gives a list without
      duplicates that holds exactly the objects of both. */
  lemma MoveAllNoDup<T>(from: seq<T>, to: seq<T>)
    requires |from| > 0 && NoDup(from) && NoDup(to)
    requires forall x :: x in from ==> x !in to
    ensures NoDup(MoveAll(from, to).1)
    ensures forall y :: y in MoveAll(from, to).1 <==> y in from || y in to
  {
    var r := MoveAll(from, to).1;
    ConcatNoDup(from, to);
    assert r == from + to;
  }
}

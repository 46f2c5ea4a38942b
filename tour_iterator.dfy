/**
 * The pruned in-order iterator over one tour (`ETFIterator` in
 * EulerTourForest.java): it visits the vertices of the occurrences whose
 * active-edge counter is positive, descending only into subtrees whose
 * `good` flag is set.
 */
module TourIteration {

  import opened Wrappers
  import opened TourTree

  /** The vertices of the active occurrences of a tour, in tour order. */
  function ActiveVertices(s: seq<Entry>): (vs: seq<nat>)
    ensures |vs| <= |s|
  {
    if s == [] then []
    else (if Active(s[0]) then [s[0].v] else []) + ActiveVertices(s[1..])
  }

  /** No occurrence at a position in [lo, hi) is active. */
  ghost predicate NoActive(s: seq<Entry>, lo: int, hi: int)
  {
    forall i :: lo <= i < hi && 0 <= i < |s| ==> !Active(s[i])
  }

  lemma {:induction false} SkipInactive(s: seq<Entry>, lo: nat, hi: nat)
    requires lo <= hi <= |s| && NoActive(s, lo, hi)
    ensures ActiveVertices(s[lo..]) == ActiveVertices(s[hi..])
    decreases hi - lo
  {
    if lo < hi {
      assert s[lo..][1..] == s[lo + 1..];
      SkipInactive(s, lo + 1, hi);
    }
  }

  lemma TakeActive(s: seq<Entry>, k: nat)
    requires k < |s| && Active(s[k])
    ensures ActiveVertices(s[k..]) == [s[k].v] + ActiveVertices(s[k + 1..])
  {
    assert s[k..][1..] == s[k + 1..];
  }

  /** A vertex is listed exactly when one of its occurrences is active. */
  lemma {:induction false} ActiveMembers(s: seq<Entry>, u: nat)
    ensures u in ActiveVertices(s) <==> exists i :: 0 <= i < |s| && Active(s[i]) && s[i].v == u
  {
    if s != [] {
      ActiveMembers(s[1..], u);
      if exists i :: 0 <= i < |s| && Active(s[i]) && s[i].v == u {
        var i :| 0 <= i < |s| && Active(s[i]) && s[i].v == u;
        if i > 0 {
          assert s[1..][i - 1] == s[i];
        }
      }
      if exists i :: 0 <= i < |s[1..]| && Active(s[1..][i]) && s[1..][i].v == u {
        var i :| 0 <= i < |s[1..]| && Active(s[1..][i]) && s[1..][i].v == u;
        assert s[i + 1] == s[1..][i];
      }
    }
  }

  /** No two active occurrences of one vertex: no vertex listed twice. */
  lemma {:induction false} ActiveOnce(s: seq<Entry>)
    requires forall i, j :: 0 <= i < j < |s| && Active(s[i]) && Active(s[j]) ==> s[i].v != s[j].v
    ensures forall i, j :: 0 <= i < j < |ActiveVertices(s)| ==> ActiveVertices(s)[i] != ActiveVertices(s)[j]
  {
    if s != [] {
      var t := s[1..];
      forall i, j | 0 <= i < j < |t| && Active(t[i]) && Active(t[j])
        ensures t[i].v != t[j].v
      {
        assert t[i] == s[i + 1] && t[j] == s[j + 1];
      }
      ActiveOnce(t);
      if Active(s[0]) {
        ActiveMembers(t, s[0].v);
        forall i | 0 <= i < |t| && Active(t[i])
          ensures t[i].v != s[0].v
        {
          assert t[i] == s[i + 1];
        }
      }
    }
  }

  /** The tour around a cursor: before the focus subtree, the left subtree,
      the node, the right subtree, after. */
  lemma Around(c: Cursor)
    requires c.focus.Node?
    ensures var s := Seq(Whole(c));
      var b := |Before(c.path)|;
      var p := Pos(c);
      && p == b + |Seq(c.focus.left)| && p < |s|
      && s[b..p] == Seq(c.focus.left)
      && s[p] == c.focus.e
      && b + |Seq(c.focus)| <= |s|
      && s[p + 1..b + |Seq(c.focus)|] == Seq(c.focus.right)
  {
    PlugSeq(c.focus, c.path);
    var s := Seq(Whole(c));
    var b, l, r := Before(c.path), Seq(c.focus.left), Seq(c.focus.right);
    var m := l + [c.focus.e] + r;
    assert s == b + m + After(c.path);
    assert s[|b|..|b| + |m|] == m;
    assert m[..|l|] == l && m[|l|] == c.focus.e && m[|l| + 1..] == r;
  }

  /** A subtree whose flag is clear holds no active occurrence. */
  lemma NotGoodSlice(s: seq<Entry>, lo: nat, hi: nat, t: Tree)
    requires lo <= hi <= |s| && s[lo..hi] == Seq(t) && Valid(t) && !GoodOf(t)
    ensures NoActive(s, lo, hi)
  {
    AggregatesMeaning(t);
    forall i | lo <= i < hi
      ensures !Active(s[i])
    {
      assert Seq(t)[i - lo] == s[i];
    }
  }

  /** The inner descent of `findNext`: in a subtree whose flag is set, go
      left while the left child's flag is set, stop at an active node, go
      right otherwise. The node reached is the first active one of the
      subtree. */
  method FirstActive(d: Cursor) returns (e: Cursor)
    requires d.focus.Node? && d.focus.good && Valid(Whole(d))
    ensures e.focus.Node? && Whole(e) == Whole(d) && Active(e.focus.e)
    ensures |Before(d.path)| <= Pos(e) < |Before(d.path)| + |Seq(d.focus)|
    ensures NoActive(Seq(Whole(d)), |Before(d.path)|, Pos(e))
  {
    ghost var s := Seq(Whole(d));
    ghost var lo := |Before(d.path)|;
    ghost var hi := lo + |Seq(d.focus)|;
    e := d;
    while true
      invariant e.focus.Node? && e.focus.good && Whole(e) == Whole(d)
      invariant lo <= |Before(e.path)| && |Before(e.path)| + |Seq(e.focus)| <= hi
      invariant NoActive(s, lo, |Before(e.path)|)
      decreases e.focus
    {
      PlugValid(e.focus, e.path);
      Around(e);
      var x := e.focus;
      if x.left.Node? && x.left.good {
        e := Cursor(x.left, [Frame(true, x.e, x.size, x.good, x.right)] + e.path);
        continue;
      }
      NotGoodSlice(s, |Before(e.path)|, Pos(e), x.left);
      if Active(x.e) {
        return;
      }
      e := Cursor(x.right, [Frame(false, x.e, x.size, x.good, x.left)] + e.path);
    }
  }

  /** The climbing part of `findNext`: from a node whose right subtree holds
      nothing active, go up while the node is a right child; the parent
      reached from a left child is the next candidate, and reaching the root
      ends the iteration. */
  method Climb(c: Cursor) returns (d: Option<Cursor>)
    requires c.focus.Node? && !GoodOf(c.focus.right) && Valid(Whole(c))
    ensures d.None? ==> NoActive(Seq(Whole(c)), Pos(c) + 1, |Seq(Whole(c))|)
    ensures d.Some? ==>
      (d.value.focus.Node? && Whole(d.value) == Whole(c)
       && Pos(c) < Pos(d.value) && NoActive(Seq(Whole(c)), Pos(c) + 1, Pos(d.value)))
  {
    ghost var s := Seq(Whole(c));
    PlugValid(c.focus, c.path);
    Around(c);
    NotGoodSlice(s, Pos(c) + 1, |Before(c.path)| + |Seq(c.focus)|, c.focus.right);
    var cur := c;
    while cur.path != [] && !cur.path[0].isLeft
      invariant cur.focus.Node? && Whole(cur) == Whole(c)
      invariant |Before(cur.path)| <= |Before(c.path)|
      invariant |Before(cur.path)| + |Seq(cur.focus)| == |Before(c.path)| + |Seq(c.focus)|
      decreases |cur.path|
    {
      cur := Up(cur);
    }
    if cur.path == [] {
      PlugSeq(cur.focus, cur.path);
      d := None;
    } else {
      var parent := Up(cur);
      Around(parent);
      d := Some(parent);
    }
  }

  /** `findNext`: move to the next active occurrence after the referenced
      one, or to null when there is none. */
  method FindNext(c: Cursor) returns (d: Option<Cursor>)
    requires c.focus.Node? && Valid(Whole(c))
    ensures d.None? ==> NoActive(Seq(Whole(c)), Pos(c) + 1, |Seq(Whole(c))|)
    ensures d.Some? ==>
      (d.value.focus.Node? && Whole(d.value) == Whole(c) && Active(d.value.focus.e)
       && Pos(c) < Pos(d.value) && NoActive(Seq(Whole(c)), Pos(c) + 1, Pos(d.value)))
  {
    ghost var s := Seq(Whole(c));
    var cur := c;
    CursorAt(c);
    while true
      invariant cur.focus.Node? && Whole(cur) == Whole(c)
      invariant Pos(c) <= Pos(cur) < |s|
      invariant NoActive(s, Pos(c) + 1, Pos(cur) + 1)
      decreases |s| - Pos(cur)
    {
      var x := cur.focus;
      if GoodOf(x.right) {
        Around(cur);
        var down := Cursor(x.right, [Frame(false, x.e, x.size, x.good, x.left)] + cur.path);
        var hit := FirstActive(down);
        return Some(hit);
      }
      var up := Climb(cur);
      if up.None? {
        return None;
      }
      cur := up.value;
      CursorAt(cur);
      if Active(cur.focus.e) {
        return Some(cur);
      }
    }
  }

  /** Where the iterator stands: at an active occurrence of `tour` with
      `rest` the vertices still to be yielded, or past the end. */
  ghost predicate Positioned(entry: Option<Cursor>, tour: seq<Entry>, rest: seq<nat>)
  {
    match entry
    case None => rest == []
    case Some(c) =>
      && c.focus.Node? && Valid(Whole(c)) && Seq(Whole(c)) == tour
      && 0 <= Pos(c) < |tour|
      && rest == [c.focus.e.v] + ActiveVertices(tour[Pos(c) + 1..])
  }

  /** `findNext` from `c`, which then stands where the active occurrences
      after `c` start. */
  method Seek(c: Cursor) returns (d: Option<Cursor>)
    requires c.focus.Node? && Valid(Whole(c))
    ensures 0 <= Pos(c) < |Seq(Whole(c))|
    ensures Positioned(d, Seq(Whole(c)), ActiveVertices(Seq(Whole(c))[Pos(c) + 1..]))
  {
    ghost var s := Seq(Whole(c));
    CursorAt(c);
    d := FindNext(c);
    if d.Some? {
      CursorAt(d.value);
      SkipInactive(s, Pos(c) + 1, Pos(d.value));
      TakeActive(s, Pos(d.value));
    } else {
      SkipInactive(s, Pos(c) + 1, |s|);
    }
  }

  /** The leftmost node of a tree. */
  function LeftmostNode(t: Tree): (m: Tree)
    requires t.Node?
    ensures m.Node? && m.left.Leaf?
  {
    if t.left.Leaf? then t else LeftmostNode(t.left)
  }

  /** What the iterator yields as written: the constructor tests the first
      node's `good` flag (an aggregate over its right subtree as well) rather
      than its own counter, so that vertex is yielded whenever anything to its
      right is active. */
  function WrittenOrder(t: Tree): seq<nat>
  {
    var s := Seq(t);
    if t.Node? && LeftmostNode(t).good && s != [] then [s[0].v] + ActiveVertices(s[1..])
    else ActiveVertices(s)
  }

  class ETFIterator {
    var entry: Option<Cursor>
    ghost var tour: seq<Entry>
    /** The vertices still to be yielded. */
    ghost var Remaining: seq<nat>

    ghost predicate Valid()
      reads this
    {
      Positioned(entry, tour, Remaining)
    }

    /** `iterator(v)`: start at the leftmost node of the tour holding `from`,
        and skip it unless its own counter is positive. */
    constructor (from: Cursor)
      requires from.focus.Node? && TourTree.Valid(Whole(from))
      ensures Valid() && tour == Seq(Whole(from))
      ensures Remaining == ActiveVertices(tour)
    {
      var t := FindRoot(from);
      assert Whole(Cursor(t, [])) == t;
      var first := Leftmost(Cursor(t, []));
      CursorAt(first);
      ghost var s := Seq(t);
      tour := s;
      assert s == [s[0]] + s[1..];
      if Active(first.focus.e) {
        entry := Some(first);
        Remaining := [first.focus.e.v] + ActiveVertices(s[1..]);
      } else {
        SkipInactive(s, 0, 1);
        var next := Seek(first);
        entry, Remaining := next, ActiveVertices(s[1..]);
      }
    }

    /** The constructor as the source writes it: the first node is skipped
        only when its `good` flag is clear. */
    constructor AsWritten(from: Cursor)
      requires from.focus.Node? && TourTree.Valid(Whole(from))
      ensures Valid() && tour == Seq(Whole(from))
      ensures Remaining == WrittenOrder(Whole(from))
    {
      var t := FindRoot(from);
      assert Whole(Cursor(t, [])) == t;
      var first := Leftmost(Cursor(t, []));
      CursorAt(first);
      LeftmostIsFirst(t, first);
      ghost var s := Seq(t);
      tour := s;
      assert s == [s[0]] + s[1..];
      if first.focus.good {
        entry := Some(first);
        Remaining := [first.focus.e.v] + ActiveVertices(s[1..]);
      } else {
        PlugValid(first.focus, first.path);
        SkipInactive(s, 0, 1);
        var next := Seek(first);
        entry, Remaining := next, ActiveVertices(s[1..]);
      }
    }

    /** `hasNext`. */
    function HasNext(): (b: bool)
      reads this
      requires Valid()
      ensures b <==> Remaining != []
    {
      entry.Some?
    }

    /** `next`: yield the current vertex and move on; `None` stands for the
        `NoSuchElementException` thrown once the iteration is exhausted. */
    method Next() returns (v: Option<nat>)
      requires Valid()
      modifies this
      ensures Valid() && tour == old(tour)
      ensures old(Remaining) == [] ==> v.None? && Remaining == []
      ensures old(Remaining) != [] ==> v == Some(old(Remaining)[0]) && Remaining == old(Remaining)[1..]
    {
      if entry.None? {
        return None;
      }
      var c := entry.value;
      ghost var rest := ActiveVertices(tour[Pos(c) + 1..]);
      assert Remaining[1..] == rest;
      v := Some(c.focus.e.v);
      var next := Seek(c);
      entry, Remaining := next, rest;
    }
  }

  /** The cursor `Leftmost` reaches from the root refers to `LeftmostNode`. */
  lemma LeftmostIsFirst(t: Tree, c: Cursor)
    requires t.Node? && c.focus.Node? && c.focus.left.Leaf? && Whole(c) == t && Pos(c) == 0
    ensures c.focus == LeftmostNode(t)
  {
    LeftmostOfPlug(c.focus, c.path);
  }

  lemma {:induction false} LeftmostOfPlug(x: Tree, path: seq<Frame>)
    requires x.Node? && |Before(path)| == 0
    ensures Plug(x, path).Node? && LeftmostNode(Plug(x, path)) == LeftmostNode(x)
    decreases |path|
  {
    if path != [] {
      assert path[0].isLeft;
      LeftmostOfPlug(Attach(x, path[0]), path[1..]);
    }
  }

  /** The as-written constructor agrees with the active vertices exactly
      when the first occurrence is active or its flag is clear. */
  lemma WrittenOrderAgrees(t: Tree)
    requires t.Node? && Valid(t)
    ensures Seq(t) != []
    ensures WrittenOrder(t) == ActiveVertices(Seq(t))
      <==> Active(Seq(t)[0]) || !LeftmostNode(t).good
  {
    AggregatesMeaning(t);
    var s := Seq(t);
    assert s == [s[0]] + s[1..];
  }

  /** After `link(0, 1)` and `incrementEdges(1)` the tour is 0 1 with only 1
      active; the constructor as written yields 0 as well. */
  lemma WrittenOrderYieldsInactive()
    ensures var t := Node(Leaf, Entry(0, 0, 0), 2, true, Node(Leaf, Entry(1, 1, 1), 1, true, Leaf));
      Valid(t) && WrittenOrder(t) == [0, 1] && ActiveVertices(Seq(t)) == [1]
  {
    var r := Node(Leaf, Entry(1, 1, 1), 1, true, Leaf);
    var t := Node(Leaf, Entry(0, 0, 0), 2, true, r);
    assert Valid(r);
    assert Seq(r) == [Entry(1, 1, 1)];
    var s := Seq(t);
    assert s == [Entry(0, 0, 0), Entry(1, 1, 1)];
    assert s[1..] == Seq(r);
    assert s[1..][1..] == [];
    assert ActiveVertices(s[1..]) == [1];
    assert ActiveVertices(s) == ActiveVertices(s[1..]);
  }
}

/**
 * The splay tree that stores one Euler tour (the `Entry` class nested in
 * EulerTourForest.java). Nodes are ordered by their position in the tour;
 * every node keeps two aggregates over its subtree: the number of
 * occurrences (`size`) and whether some occurrence has a positive
 * active-edge count (`good`).
 *
 * The pointer structure is modelled by values: a `Tree` is a splay tree,
 * and a `Cursor` (a subtree together with the path of frames that leads
 * back to the root) plays the part of an `Entry` reference with its chain
 * of `parent` pointers. The pointer walks of the source (the splay loop,
 * `rightmost`, `leftmost`, `succ`, `findRoot`, `repairEdgesNumber`) stay
 * loops over the cursor.
 */
module TourTree {

  import opened Wrappers

  /** One occurrence of vertex `v` in a tour; `id` stands for object identity. */
  datatype Entry = Entry(id: nat, v: nat, edges: int)

  datatype Tree =
    | Leaf
    | Node(left: Tree, e: Entry, size: int, good: bool, right: Tree)

  /** The in-order sequence: the tour itself. */
  function Seq(t: Tree): seq<Entry>
  {
    match t
    case Leaf => []
    case Node(l, e, _, _, r) => Seq(l) + [e] + Seq(r)
  }

  /** The identities of the occurrences stored in `t`. */
  function Ids(t: Tree): set<nat>
  {
    match t
    case Leaf => {}
    case Node(l, e, _, _, r) => Ids(l) + {e.id} + Ids(r)
  }

  /** `size` of a possibly-null child, as `recalc` reads it. */
  function SizeOf(t: Tree): int
  {
    if t.Leaf? then 0 else t.size
  }

  /** `good` of a possibly-null child, as `recalc` reads it. */
  function GoodOf(t: Tree): bool
  {
    t.Node? && t.good
  }

  /** The occurrence carries active edges. */
  predicate Active(e: Entry)
  {
    e.edges > 0
  }

  ghost predicate AnyActive(s: seq<Entry>)
  {
    exists i :: 0 <= i < |s| && Active(s[i])
  }

  /** The aggregate invariant that `recalc` restores at every node. */
  ghost predicate Valid(t: Tree)
  {
    t.Node? ==>
      && Valid(t.left)
      && Valid(t.right)
      && t.size == 1 + SizeOf(t.left) + SizeOf(t.right)
      && t.good == (Active(t.e) || GoodOf(t.left) || GoodOf(t.right))
  }

  /** `recalc`: rebuild a node's aggregates from its two children. */
  function Recalc(l: Tree, e: Entry, r: Tree): (t: Tree)
    ensures t.Node? && t.left == l && t.e == e && t.right == r
    ensures Seq(t) == Seq(l) + [e] + Seq(r)
    ensures Valid(l) && Valid(r) ==> Valid(t)
  {
    Node(l, e, 1 + SizeOf(r) + SizeOf(l), Active(e) || GoodOf(r) || GoodOf(l), r)
  }

  /** The aggregates mean what they are meant to mean: `size` counts the
      occurrences of the subtree, and `good` says that one of them is active. */
  lemma {:induction false} AggregatesMeaning(t: Tree)
    requires Valid(t)
    ensures SizeOf(t) == |Seq(t)|
    ensures GoodOf(t) <==> AnyActive(Seq(t))
  {
    if t.Node? {
      AggregatesMeaning(t.left);
      AggregatesMeaning(t.right);
      var s := Seq(t);
      var nl := |Seq(t.left)|;
      assert s == Seq(t.left) + [t.e] + Seq(t.right);
      if GoodOf(t.left) {
        var i :| 0 <= i < nl && Active(Seq(t.left)[i]);
        assert s[i] == Seq(t.left)[i];
      } else if Active(t.e) {
        assert s[nl] == t.e;
      } else if GoodOf(t.right) {
        var i :| 0 <= i < |Seq(t.right)| && Active(Seq(t.right)[i]);
        assert s[nl + 1 + i] == Seq(t.right)[i];
      }
      if AnyActive(s) {
        var i :| 0 <= i < |s| && Active(s[i]);
        if i < nl {
          assert Seq(t.left)[i] == s[i];
        } else if i > nl {
          assert Seq(t.right)[i - nl - 1] == s[i];
        }
      }
    }
  }

  lemma {:induction false} IdsMeaning(t: Tree, id: nat)
    ensures id in Ids(t) <==> exists i :: 0 <= i < |Seq(t)| && Seq(t)[i].id == id
  {
    if t.Node? {
      IdsMeaning(t.left, id);
      IdsMeaning(t.right, id);
      var s := Seq(t);
      var nl := |Seq(t.left)|;
      assert s == Seq(t.left) + [t.e] + Seq(t.right);
      if id in Ids(t.left) {
        var i :| 0 <= i < nl && Seq(t.left)[i].id == id;
        assert s[i] == Seq(t.left)[i];
      } else if id in Ids(t.right) {
        var i :| 0 <= i < |Seq(t.right)| && Seq(t.right)[i].id == id;
        assert s[nl + 1 + i] == Seq(t.right)[i];
      } else if id == t.e.id {
        assert s[nl] == t.e;
      }
      if exists i :: 0 <= i < |s| && s[i].id == id {
        var i :| 0 <= i < |s| && s[i].id == id;
        if i < nl {
          assert Seq(t.left)[i] == s[i];
        } else if i > nl {
          assert Seq(t.right)[i - nl - 1] == s[i];
        }
      }
    }
  }

  /** `rotate(leftRotate)` applied to node `t`: its left child (or its right
      child) moves up and takes `t`'s place. */
  function Rotate(t: Tree, leftRotate: bool): (r: Tree)
    requires t.Node? && (if leftRotate then t.left.Node? else t.right.Node?)
    ensures r.Node? && r.e == (if leftRotate then t.left.e else t.right.e)
    ensures Seq(r) == Seq(t)
    ensures Valid(t) ==> Valid(r) && SizeOf(r) == SizeOf(t) && GoodOf(r) == GoodOf(t)
  {
    if leftRotate then
      var c := t.left;
      assert Valid(t) ==> Valid(c) && Valid(t.right);
      Recalc(c.left, c.e, Recalc(c.right, t.e, t.right))
    else
      var c := t.right;
      assert Valid(t) ==> Valid(c) && Valid(t.left);
      Recalc(Recalc(t.left, t.e, c.left), c.e, c.right)
  }

  /** One step from a node up to its parent: `isLeft` says whether the node is
      the parent's left child; the parent's entry, stored aggregates and other
      child are kept as they are. */
  datatype Frame = Frame(isLeft: bool, e: Entry, size: int, good: bool, sibling: Tree)

  /** A reference to a node of a tree: the subtree rooted at it, and the
      frames up to the root (the chain of `parent` pointers). */
  datatype Cursor = Cursor(focus: Tree, path: seq<Frame>)

  function Attach(t: Tree, f: Frame): Tree
  {
    if f.isLeft then Node(t, f.e, f.size, f.good, f.sibling)
    else Node(f.sibling, f.e, f.size, f.good, t)
  }

  /** The whole tree a subtree and its path belong to. */
  function Plug(t: Tree, path: seq<Frame>): Tree
    decreases |path|
  {
    if path == [] then t else Plug(Attach(t, path[0]), path[1..])
  }

  function Whole(c: Cursor): Tree
  {
    Plug(c.focus, c.path)
  }

  /** One step up: the parent of the focus becomes the focus. */
  function Up(c: Cursor): (d: Cursor)
    requires c.path != []
    ensures Whole(d) == Whole(c) && |d.path| == |c.path| - 1
  {
    Cursor(Attach(c.focus, c.path[0]), c.path[1..])
  }

  /** The occurrences that come before / after the focus subtree. */
  function Before(path: seq<Frame>): seq<Entry>
    decreases |path|
  {
    if path == [] then []
    else Before(path[1..]) + (if path[0].isLeft then [] else Seq(path[0].sibling) + [path[0].e])
  }

  function After(path: seq<Frame>): seq<Entry>
    decreases |path|
  {
    if path == [] then []
    else (if path[0].isLeft then [path[0].e] + Seq(path[0].sibling) else []) + After(path[1..])
  }

  /** Position, in the tour, of the node a cursor refers to. */
  function Pos(c: Cursor): int
    requires c.focus.Node?
  {
    |Before(c.path)| + |Seq(c.focus.left)|
  }

  lemma {:induction false} PlugSeq(t: Tree, path: seq<Frame>)
    ensures Seq(Plug(t, path)) == Before(path) + Seq(t) + After(path)
    decreases |path|
  {
    if path != [] {
      PlugSeq(Attach(t, path[0]), path[1..]);
    }
  }

  /** The focus node sits at position `Pos(c)` of the whole tour. */
  lemma CursorAt(c: Cursor)
    requires c.focus.Node?
    ensures 0 <= Pos(c) < |Seq(Whole(c))| && Seq(Whole(c))[Pos(c)] == c.focus.e
  {
    PlugSeq(c.focus, c.path);
  }

  /** Plugging under one more frame at the top. The twin of
      OrderTree.PlugAppend is deliberate: each splay tree keeps its own. */
  lemma {:induction false} PlugAppend(t: Tree, path: seq<Frame>, f: Frame)
    ensures Plug(t, path + [f]) == Attach(Plug(t, path), f)
    decreases |path|
  {
    if path == [] {
      assert path + [f] == [f];
    } else {
      assert (path + [f])[1..] == path[1..] + [f];
      PlugAppend(Attach(t, path[0]), path[1..], f);
    }
  }

  /** The frames on a path are consistent with a child of the given size and
      goodness; the stored aggregates above the focus are then all right. */
  ghost predicate ValidPath(path: seq<Frame>, size: int, good: bool)
    decreases |path|
  {
    path != [] ==>
      var f := path[0];
      && Valid(f.sibling)
      && f.size == 1 + size + SizeOf(f.sibling)
      && f.good == (Active(f.e) || good || GoodOf(f.sibling))
      && ValidPath(path[1..], f.size, f.good)
  }

  lemma {:induction false} PlugValid(t: Tree, path: seq<Frame>)
    ensures Valid(Plug(t, path)) <==> Valid(t) && ValidPath(path, SizeOf(t), GoodOf(t))
    decreases |path|
  {
    if path != [] {
      PlugValid(Attach(t, path[0]), path[1..]);
    }
  }

  /** Replacing the focus subtree by one with the same tour and the same
      aggregates keeps the whole tree valid and its tour unchanged. */
  lemma ReplaceFocus(t: Tree, t': Tree, path: seq<Frame>)
    requires Valid(Plug(t, path)) && Valid(t')
    requires Seq(t') == Seq(t) && SizeOf(t') == SizeOf(t) && GoodOf(t') == GoodOf(t)
    ensures Valid(Plug(t', path)) && Seq(Plug(t', path)) == Seq(Plug(t, path))
  {
    PlugValid(t, path);
    PlugValid(t', path);
    PlugSeq(t, path);
    PlugSeq(t', path);
  }

  /** A subtree put back along a path gives a tree whose root does not
      depend on the subtree's own entry fields, only on its identity. */
  lemma {:induction false} PlugRootId(x: Tree, y: Tree, path: seq<Frame>)
    requires x.Node? && y.Node? && x.e.id == y.e.id
    ensures Plug(x, path).Node? && Plug(y, path).Node? && Plug(x, path).e.id == Plug(y, path).e.id
    decreases |path|
  {
    if path != [] {
      PlugRootId(Attach(x, path[0]), Attach(y, path[0]), path[1..]);
    }
  }

  /** Find the node holding occurrence `id` (an `Entry` reference). */
  function Locate(t: Tree, id: nat): (c: Cursor)
    requires id in Ids(t)
    ensures c.focus.Node? && c.focus.e.id == id && Whole(c) == t
  {
    if t.e.id == id then Cursor(t, [])
    else if id in Ids(t.left) then
      var c := Locate(t.left, id);
      PlugAppend(c.focus, c.path, Frame(true, t.e, t.size, t.good, t.right));
      Cursor(c.focus, c.path + [Frame(true, t.e, t.size, t.good, t.right)])
    else
      var c := Locate(t.right, id);
      PlugAppend(c.focus, c.path, Frame(false, t.e, t.size, t.good, t.left));
      Cursor(c.focus, c.path + [Frame(false, t.e, t.size, t.good, t.left)])
  }

  /** `findRoot`: follow the parent pointers up to the root. */
  method FindRoot(c: Cursor) returns (t: Tree)
    requires c.focus.Node?
    ensures t == Whole(c)
    ensures 0 <= Pos(c) < |Seq(t)| && Seq(t)[Pos(c)] == c.focus.e
  {
    var x, path := c.focus, c.path;
    while path != []
      invariant Plug(x, path) == Whole(c)
      decreases |path|
    {
      x, path := Attach(x, path[0]), path[1..];
    }
    t := x;
    CursorAt(c);
  }

  /** `isSingletone`: no parent and no children. */
  function IsSingleton(c: Cursor): (b: bool)
    requires c.focus.Node?
    ensures b <==> |Seq(Whole(c))| == 1
  {
    PlugSeq(c.focus, c.path);
    assert c.path != [] ==> |Before(c.path) + After(c.path)| >= 1 by {
      if c.path != [] {
        assert |Before(c.path)| + |After(c.path)| >= 1;
      }
    }
    c.path == [] && c.focus.left.Leaf? && c.focus.right.Leaf?
  }

  /** One iteration of the `splay` loop: a zig-zig or zig-zag step when the
      node has a grandparent, a single rotation (zig) when it has only a parent. */
  function SplayStep(x: Tree, path: seq<Frame>): (r: Cursor)
    requires x.Node? && path != []
    ensures r.focus.Node? && r.focus.e == x.e
    ensures |r.path| < |path| && (|path| >= 2 ==> r.path == path[2..]) && (|path| == 1 ==> r.path == [])
  {
    var p := path[0];
    var isLeft := p.isLeft;
    if |path| >= 2 then
      var g := path[1];
      var pIsLeft := g.isLeft;
      if isLeft == pIsLeft then
        Cursor(Rotate(Rotate(Attach(Attach(x, p), g), pIsLeft), isLeft), path[2..])
      else
        Cursor(Rotate(Attach(Rotate(Attach(x, p), isLeft), g), pIsLeft), path[2..])
    else
      Cursor(Rotate(Attach(x, p), isLeft), [])
  }

  /** A splay step keeps the tree valid, its tour unchanged, and the node at
      its position. */
  lemma SplayStepCorrect(x: Tree, path: seq<Frame>)
    requires x.Node? && path != [] && Valid(Plug(x, path))
    ensures var r := SplayStep(x, path);
      && Valid(Whole(r)) && Seq(Whole(r)) == Seq(Plug(x, path))
      && |Before(r.path)| + |Seq(r.focus.left)| == |Before(path)| + |Seq(x.left)|
  {
    if |path| >= 2 {
      var grandpa := Attach(Attach(x, path[0]), path[1]);
      assert path[1..][1..] == path[2..];
      assert Plug(x, path) == Plug(grandpa, path[2..]);
      SplayStepValid(x, path);
      SplayStepPos(x, path);
    } else {
      assert path[1..] == [];
      assert Plug(x, path) == Attach(x, path[0]);
    }
  }

  lemma SplayStepValid(x: Tree, path: seq<Frame>)
    requires x.Node? && |path| >= 2
    requires Valid(Plug(Attach(Attach(x, path[0]), path[1]), path[2..]))
    ensures var r := SplayStep(x, path);
      && Valid(Whole(r)) && Seq(Whole(r)) == Seq(Plug(Attach(Attach(x, path[0]), path[1]), path[2..]))
  {
    var grandpa := Attach(Attach(x, path[0]), path[1]);
    PlugValid(grandpa, path[2..]);
    ReplaceFocus(grandpa, SplayStep(x, path).focus, path[2..]);
  }

  lemma SplayStepPos(x: Tree, path: seq<Frame>)
    requires x.Node? && |path| >= 2
    ensures var r := SplayStep(x, path);
      |Before(r.path)| + |Seq(r.focus.left)| == |Before(path)| + |Seq(x.left)|
  {
    assert path[1..][1..] == path[2..];
  }

  /** `splay`: rotate the referenced node up to the root by zig, zig-zig and
      zig-zag steps. The tour is unchanged and the node keeps its position. */
  method Splay(c: Cursor) returns (t: Tree)
    requires c.focus.Node? && Valid(Whole(c))
    ensures t.Node? && t.e == c.focus.e
    ensures Valid(t) && Seq(t) == Seq(Whole(c))
    ensures |Seq(t.left)| == Pos(c)
  {
    var x, path := c.focus, c.path;
    while path != []
      invariant x.Node? && x.e == c.focus.e
      invariant Valid(Plug(x, path)) && Seq(Plug(x, path)) == Seq(Whole(c))
      invariant |Before(path)| + |Seq(x.left)| == Pos(c)
      decreases |path|
    {
      SplayStepCorrect(x, path);
      var r := SplayStep(x, path);
      x, path := r.focus, r.path;
    }
    t := x;
  }

  /** `rightmost`: walk down right children from the referenced node. */
  method Rightmost(c: Cursor) returns (d: Cursor)
    requires c.focus.Node?
    ensures d.focus.Node? && d.focus.right.Leaf? && Whole(d) == Whole(c)
    ensures Pos(d) == |Before(c.path)| + |Seq(c.focus)| - 1
  {
    d := c;
    while d.focus.right.Node?
      invariant d.focus.Node? && Whole(d) == Whole(c)
      invariant |Before(d.path)| + |Seq(d.focus)| == |Before(c.path)| + |Seq(c.focus)|
      decreases d.focus
    {
      var x := d.focus;
      d := Cursor(x.right, [Frame(false, x.e, x.size, x.good, x.left)] + d.path);
    }
  }

  /** `leftmost`: walk down left children from the referenced node. */
  method Leftmost(c: Cursor) returns (d: Cursor)
    requires c.focus.Node?
    ensures d.focus.Node? && d.focus.left.Leaf? && Whole(d) == Whole(c)
    ensures Pos(d) == |Before(c.path)|
  {
    d := c;
    while d.focus.left.Node?
      invariant d.focus.Node? && Whole(d) == Whole(c)
      invariant |Before(d.path)| == |Before(c.path)|
      decreases d.focus
    {
      var x := d.focus;
      d := Cursor(x.left, [Frame(true, x.e, x.size, x.good, x.right)] + d.path);
    }
  }

  /** `succ`: the node that follows the referenced one in the tour, if any. */
  method Succ(c: Cursor) returns (d: Option<Cursor>)
    requires c.focus.Node?
    ensures d.None? <==> Pos(c) == |Seq(Whole(c))| - 1
    ensures d.Some? ==> d.value.focus.Node? && Whole(d.value) == Whole(c) && Pos(d.value) == Pos(c) + 1
  {
    CursorAt(c);
    if c.focus.right.Leaf? {
      var cur := c;
      while cur.path != [] && !cur.path[0].isLeft
        invariant cur.focus.Node? && Whole(cur) == Whole(c)
        invariant |Before(cur.path)| + |Seq(cur.focus)| == Pos(c) + 1
        decreases |cur.path|
      {
        cur := Up(cur);
      }
      if cur.path == [] {
        d := None;
      } else {
        var parent := Up(cur);
        CursorAt(parent);
        d := Some(parent);
      }
    } else {
      var x := c.focus;
      var lm := Leftmost(Cursor(x.right, [Frame(false, x.e, x.size, x.good, x.left)] + c.path));
      CursorAt(lm);
      d := Some(lm);
    }
  }

  /** `l` and `r` are valid trees whose tours concatenate to that of `t`,
      split at entry `id`: `id` is the root of `l` with nothing to its right
      (`keepInLeft`), or the root of `r` with nothing to its left. */
  ghost predicate SplitAt(t: Tree, id: nat, keepInLeft: bool, l: Tree, r: Tree)
    requires Valid(t) && id in Ids(t)
  {
    && Valid(l) && Valid(r) && Seq(l) + Seq(r) == Seq(t)
    && (keepInLeft ==> l.Node? && l.e.id == id && l.right.Leaf? && |Seq(l)| == Pos(Locate(t, id)) + 1)
    && (!keepInLeft ==> r.Node? && r.e.id == id && r.left.Leaf? && |Seq(l)| == Pos(Locate(t, id)))
  }

  /** `split(e, keepInLeft)`: splay `e` and detach its right (or left)
      subtree. */
  method Split(t: Tree, id: nat, keepInLeft: bool) returns (l: Tree, r: Tree)
    requires Valid(t) && id in Ids(t)
    ensures SplitAt(t, id, keepInLeft, l, r)
  {
    var s := Splay(Locate(t, id));
    if keepInLeft {
      l, r := Recalc(s.left, s.e, Leaf), s.right;
    } else {
      l, r := s.left, Recalc(Leaf, s.e, s.right);
    }
  }

  /** `merge(l, r)`: splay the last node of `l` and hang `r` to its right.
      The tour of the result is the concatenation; a null side gives the other. */
  method Merge(l: Tree, r: Tree) returns (t: Tree)
    requires Valid(l) && Valid(r)
    ensures Valid(t) && Seq(t) == Seq(l) + Seq(r)
    ensures l.Leaf? ==> t == r
    ensures r.Leaf? ==> t == l
  {
    if l.Leaf? {
      return r;
    }
    if r.Leaf? {
      return l;
    }
    var last := Rightmost(Cursor(l, []));
    var m := Splay(last);
    assert |Seq(m.right)| == 0;
    t := Recalc(m.left, m.e, r);
  }

  /** `remove`: splay the node, detach both children and merge them. The
      tour loses exactly that occurrence. */
  method Remove(t: Tree, id: nat) returns (r: Tree)
    requires Valid(t) && id in Ids(t)
    ensures Valid(r)
    ensures var k := Pos(Locate(t, id));
      0 <= k < |Seq(t)| && Seq(t)[k].id == id && Seq(r) == Seq(t)[..k] + Seq(t)[k + 1..]
  {
    CursorAt(Locate(t, id));
    var s := Splay(Locate(t, id));
    r := Merge(s.left, s.right);
  }

  /** The recomputed `good` flag of a node from its children. */
  function Fresh(x: Tree): (g: bool)
    requires x.Node?
    ensures Valid(x.left) && Valid(x.right) && x.size == 1 + SizeOf(x.left) + SizeOf(x.right)
      ==> Valid(x.(good := g))
  {
    Active(x.e) || GoodOf(x.left) || GoodOf(x.right)
  }

  /** The shape `repairEdgesNumber` relies on: every stored aggregate is right
      except possibly the focus's own `good` flag. */
  ghost predicate StaleAtFocus(x: Tree, path: seq<Frame>)
  {
    && x.Node? && Valid(x.left) && Valid(x.right)
    && x.size == 1 + SizeOf(x.left) + SizeOf(x.right)
    && ValidPath(path, x.size, x.good)
  }

  lemma RepairStep(x: Tree, path: seq<Frame>)
    requires StaleAtFocus(x, path) && path != []
    ensures StaleAtFocus(Attach(x.(good := Fresh(x)), path[0]), path[1..])
    ensures Seq(Plug(Attach(x.(good := Fresh(x)), path[0]), path[1..])) == Seq(Plug(x, path))
  {
    PlugSeq(x, path);
    PlugSeq(x.(good := Fresh(x)), path);
  }

  lemma RepairDone(x: Tree, path: seq<Frame>)
    requires StaleAtFocus(x, path) && x.good == Fresh(x)
    ensures Valid(Plug(x, path))
  {
    PlugValid(x, path);
  }

  /** `repairEdgesNumber`: walk up from the focus, recomputing `good`, and
      stop at the first node whose flag does not change. The focus's own
      flag may be stale; every other stored aggregate is right. */
  method RepairGood(c: Cursor) returns (t: Tree)
    requires StaleAtFocus(c.focus, c.path)
    ensures Valid(t) && Seq(t) == Seq(Whole(c))
    ensures t.Node? && Whole(c).Node? && t.e.id == Whole(c).e.id
  {
    var x, path := c.focus, c.path;
    PlugRootId(x, x, path);
    while path != [] && x.good != Fresh(x)
      invariant StaleAtFocus(x, path)
      invariant Seq(Plug(x, path)) == Seq(Whole(c))
      invariant Plug(x, path).Node? && Plug(x, path).e.id == Whole(c).e.id
      decreases |path|
    {
      RepairStep(x, path);
      PlugRootId(x.(good := Fresh(x)), x, path);
      x, path := Attach(x.(good := Fresh(x)), path[0]), path[1..];
    }
    if x.good != Fresh(x) {
      PlugRootId(x.(good := Fresh(x)), x, path);
      x := x.(good := Fresh(x));
    }
    RepairDone(x, path);
    t := Plug(x, path);
  }

  lemma UpdateMiddle<T>(u: seq<T>, a: T, w: seq<T>, b: T)
    ensures (u + [a] + w)[|u| := b] == u + [b] + w
  {
  }

  lemma Regroup<T>(b: seq<T>, l: seq<T>, e: T, r: seq<T>, a: seq<T>)
    ensures b + (l + [e] + r) + a == (b + l) + [e] + (r + a)
  {
  }

  /** Changing the entry at the focus changes the tour at one position. */
  lemma FocusEntry(c: Cursor, x: Tree)
    requires c.focus.Node? && x.Node? && x.left == c.focus.left && x.right == c.focus.right
    ensures 0 <= Pos(c) < |Seq(Whole(c))|
    ensures Seq(Plug(x, c.path)) == Seq(Whole(c))[Pos(c) := x.e]
  {
    var B, A := Before(c.path), After(c.path);
    var L, R := Seq(c.focus.left), Seq(c.focus.right);
    PlugSeq(c.focus, c.path);
    PlugSeq(x, c.path);
    Regroup(B, L, c.focus.e, R, A);
    Regroup(B, L, x.e, R, A);
    UpdateMiddle(B + L, c.focus.e, R + A, x.e);
  }

  /** A parent whose child was replaced by a valid subtree with the same size
      has only its own flag possibly stale. */
  lemma StaleUp(x: Tree, was: Tree, path: seq<Frame>)
    requires Valid(x) && x.Node? && was.Node? && x.size == was.size && path != []
    requires ValidPath(path, was.size, was.good)
    ensures StaleAtFocus(Attach(x, path[0]), path[1..])
  {
  }

  /** The active-edge counter of occurrence `id`. */
  function EdgesOf(t: Tree, id: nat): int
    requires id in Ids(t)
  {
    var c := Locate(t, id);
    CursorAt(c);
    Seq(t)[Pos(c)].edges
  }

  /** The entry with identity `id` in a tour, with its counter changed. */
  function Bumped(t: Tree, id: nat, edges: int): (s: seq<Entry>)
    requires id in Ids(t)
    ensures var p := Pos(Locate(t, id));
      0 <= p < |Seq(t)| && Seq(t)[p].id == id && s == Seq(t)[p := Seq(t)[p].(edges := edges)]
  {
    var c := Locate(t, id);
    CursorAt(c);
    Seq(t)[Pos(c) := Seq(t)[Pos(c)].(edges := edges)]
  }

  /** `r` is the valid tree `t` with the counter of occurrence `id` moved
      by `d`, under the same root. */
  ghost predicate Moved(t: Tree, id: nat, d: int, r: Tree)
    requires id in Ids(t)
  {
    Valid(r) && Seq(r) == Bumped(t, id, EdgesOf(t, id) + d) && r.Node? && t.Node? && r.e.id == t.e.id
  }

  /** `changeEdges` on one tour: set the counter of occurrence `id` and
      repair the `good` flags from it upwards. */
  method SetEdges(t: Tree, id: nat, k: int) returns (r: Tree)
    requires Valid(t) && id in Ids(t)
    ensures Valid(r) && Seq(r) == Bumped(t, id, k)
    ensures r.Node? && t.Node? && r.e.id == t.e.id
  {
    var c := Locate(t, id);
    CursorAt(c);
    PlugValid(c.focus, c.path);
    var x := c.focus.(e := c.focus.e.(edges := k));
    FocusEntry(c, x);
    PlugRootId(x, c.focus, c.path);
    r := RepairGood(Cursor(x, c.path));
  }

  /** `incrementEdges` on one tour: add one to the counter of occurrence
      `id`; only when it becomes 1 does the flag change, and the repair then
      starts at the parent. */
  method Increment(t: Tree, id: nat) returns (r: Tree)
    requires Valid(t) && id in Ids(t)
    ensures Valid(r) && Seq(r) == Bumped(t, id, EdgesOf(t, id) + 1)
    ensures r.Node? && t.Node? && r.e.id == t.e.id && Moved(t, id, 1, r)
  {
    var c := Locate(t, id);
    CursorAt(c);
    PlugValid(c.focus, c.path);
    var x := c.focus.(e := c.focus.e.(edges := c.focus.e.edges + 1));
    FocusEntry(c, x);
    if x.e.edges == 1 {
      x := x.(good := true);
      FocusEntry(c, x);
      PlugRootId(x, c.focus, c.path);
      if c.path == [] {
        r := x;
      } else {
        StaleUp(x, c.focus, c.path);
        r := RepairGood(Up(Cursor(x, c.path)));
      }
    } else {
      PlugValid(x, c.path);
      PlugRootId(x, c.focus, c.path);
      r := Plug(x, c.path);
    }
  }

  /** `decrementEdges` on one tour: subtract one from the counter of
      occurrence `id`; the flags are repaired only when it reaches 0. */
  method Decrement(t: Tree, id: nat) returns (r: Tree)
    requires Valid(t) && id in Ids(t)
    ensures Valid(r) && Seq(r) == Bumped(t, id, EdgesOf(t, id) - 1)
    ensures r.Node? && t.Node? && r.e.id == t.e.id && Moved(t, id, -1, r)
  {
    var c := Locate(t, id);
    CursorAt(c);
    PlugValid(c.focus, c.path);
    var x := c.focus.(e := c.focus.e.(edges := c.focus.e.edges - 1));
    FocusEntry(c, x);
    PlugRootId(x, c.focus, c.path);
    if x.e.edges == 0 {
      r := RepairGood(Cursor(x, c.path));
    } else {
      PlugValid(x, c.path);
      r := Plug(x, c.path);
    }
  }
}

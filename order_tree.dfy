/**
 * The order-statistics splay tree of the C++ driver (the `Entry` and `Tree`
 * classes of the anonymous namespace in Main.cpp): a binary search tree
 * keyed by `v`, each node carrying a `value` and the `size` of its subtree.
 *
 * As for the tour trees, the pointer structure is modelled by values: a
 * `Subtree` is a tree, and a `Cursor` (a subtree and the frames that lead
 * back to the root) stands for an `Entry*` with its chain of `parent`
 * pointers. The pointer walks of the source (`splay`, `find_root`,
 * `rightmost`, `kth`) stay loops; `find` is the recursive search it is in
 * the source; `Tree` is a class whose `root` the operations reassign.
 */
module OrderTree {

  /** The key `v` and the payload `value` of one node. */
  datatype Item = Item(v: nat, value: nat)

  datatype Subtree =
    | Nil
    | Node(left: Subtree, item: Item, size: int, right: Subtree)

  /** The in-order sequence of the items. */
  function Items(t: Subtree): seq<Item>
  {
    match t
    case Nil => []
    case Node(l, it, _, r) => Items(l) + [it] + Items(r)
  }

  /** The keys of a sequence of items. */
  ghost function Keys(s: seq<Item>): set<nat>
  {
    set i | 0 <= i < |s| :: s[i].v
  }

  /** Keys strictly increase from left to right. */
  ghost predicate Sorted(s: seq<Item>)
  {
    forall i, j :: 0 <= i < j < |s| ==> s[i].v < s[j].v
  }

  /** `size` of a possibly-null child, as `recalc` reads it. */
  function SizeOf(t: Subtree): int
  {
    if t.Nil? then 0 else t.size
  }

  /** The aggregate invariant that `recalc` restores at every node. */
  ghost predicate Sized(t: Subtree)
  {
    t.Node? ==>
      && Sized(t.left)
      && Sized(t.right)
      && t.size == 1 + SizeOf(t.left) + SizeOf(t.right)
  }

  /** `recalc`: a node whose size is rebuilt from its two children. */
  function Recalc(l: Subtree, it: Item, r: Subtree): (t: Subtree)
    ensures t.Node? && t.left == l && t.item == it && t.right == r
    ensures Items(t) == Items(l) + [it] + Items(r)
    ensures Sized(l) && Sized(r) ==> Sized(t)
  {
    Node(l, it, 1 + SizeOf(r) + SizeOf(l), r)
  }

  /** The stored size is the number of items of the subtree. */
  lemma {:induction false} SizeMeaning(t: Subtree)
    requires Sized(t)
    ensures SizeOf(t) == |Items(t)|
  {
    if t.Node? {
      SizeMeaning(t.left);
      SizeMeaning(t.right);
    }
  }

  /** The two sides of an item in a sorted sequence are sorted, with the
      keys on the left below the item's and those on the right above. */
  lemma SortedAround(a: seq<Item>, x: Item, b: seq<Item>)
    requires Sorted(a + [x] + b)
    ensures Sorted(a) && Sorted(b)
    ensures forall i | 0 <= i < |a| :: a[i].v < x.v
    ensures forall i | 0 <= i < |b| :: x.v < b[i].v
  {
    var s := a + [x] + b;
    assert s[|a|] == x;
    forall i, j | 0 <= i < j < |a|
      ensures a[i].v < a[j].v
    {
      assert s[i] == a[i] && s[j] == a[j];
    }
    forall i, j | 0 <= i < j < |b|
      ensures b[i].v < b[j].v
    {
      assert s[|a| + 1 + i] == b[i] && s[|a| + 1 + j] == b[j];
    }
    forall i | 0 <= i < |a|
      ensures a[i].v < x.v
    {
      assert s[i] == a[i];
    }
    forall i | 0 <= i < |b|
      ensures x.v < b[i].v
    {
      assert s[|a| + 1 + i] == b[i];
    }
  }

  /** The two subtrees of a search tree are search trees, with the keys on
      the left below the node's and those on the right above. */
  lemma SortedParts(l: Subtree, it: Item, r: Subtree)
    requires Sorted(Items(l) + [it] + Items(r))
    ensures Sorted(Items(l)) && Sorted(Items(r))
    ensures forall i | 0 <= i < |Items(l)| :: Items(l)[i].v < it.v
    ensures forall i | 0 <= i < |Items(r)| :: it.v < Items(r)[i].v
  {
    SortedAround(Items(l), it, Items(r));
  }

  /** The keys of a concatenation. */
  lemma KeysCat(a: seq<Item>, b: seq<Item>)
    ensures Keys(a + b) == Keys(a) + Keys(b)
  {
    var s := a + b;
    forall w | w in Keys(s)
      ensures w in Keys(a) + Keys(b)
    {
      var j :| 0 <= j < |s| && s[j].v == w;
      if j < |a| {
        assert s[j] == a[j];
      } else {
        assert s[j] == b[j - |a|];
      }
    }
    forall w | w in Keys(a) + Keys(b)
      ensures w in Keys(s)
    {
      if w in Keys(a) {
        var j :| 0 <= j < |a| && a[j].v == w;
        assert s[j] == a[j];
      } else {
        var j :| 0 <= j < |b| && b[j].v == w;
        assert s[|a| + j] == b[j];
      }
    }
  }

  lemma KeysOfNode(t: Subtree)
    requires t.Node?
    ensures Keys(Items(t)) == Keys(Items(t.left)) + {t.item.v} + Keys(Items(t.right))
  {
    var L, R := Items(t.left), Items(t.right);
    assert Items(t) == (L + [t.item]) + R;
    KeysCat(L + [t.item], R);
    KeysCat(L, [t.item]);
    assert [t.item][0] == t.item;
    assert Keys([t.item]) == {t.item.v};
  }

  /** `rotate(left_rotate)` applied to node `t`: its left (or right) child
      moves up and takes `t`'s place. */
  function Rotate(t: Subtree, leftRotate: bool): (r: Subtree)
    requires t.Node? && (if leftRotate then t.left.Node? else t.right.Node?)
    ensures r.Node? && r.item == (if leftRotate then t.left.item else t.right.item)
    ensures Items(r) == Items(t)
    ensures Sized(t) ==> Sized(r) && SizeOf(r) == SizeOf(t)
  {
    if leftRotate then
      var c := t.left;
      assert Sized(t) ==> Sized(c) && Sized(t.right);
      Recalc(c.left, c.item, Recalc(c.right, t.item, t.right))
    else
      var c := t.right;
      assert Sized(t) ==> Sized(c) && Sized(t.left);
      Recalc(Recalc(t.left, t.item, c.left), c.item, c.right)
  }

  // ---------------------------------------------------------------------
  // Node references

  /** One step from a node up to its parent: whether the node is the
      parent's left child, and the parent's item, stored size and other
      child. */
  datatype Frame = Frame(isLeft: bool, item: Item, size: int, sibling: Subtree)

  /** An `Entry*`: the subtree rooted at the node and the frames up to the
      root. */
  datatype Cursor = Cursor(focus: Subtree, path: seq<Frame>)

  function Attach(t: Subtree, f: Frame): Subtree
  {
    if f.isLeft then Node(t, f.item, f.size, f.sibling) else Node(f.sibling, f.item, f.size, t)
  }

  function Plug(t: Subtree, path: seq<Frame>): Subtree
    decreases |path|
  {
    if path == [] then t else Plug(Attach(t, path[0]), path[1..])
  }

  /** The whole tree the referenced node belongs to. */
  function Whole(c: Cursor): Subtree
  {
    Plug(c.focus, c.path)
  }

  /** The items of the frames that come before the focus subtree in order. */
  function Before(path: seq<Frame>): seq<Item>
    decreases |path|
  {
    if path == [] then []
    else Before(path[1..]) + (if path[0].isLeft then [] else Items(path[0].sibling) + [path[0].item])
  }

  function After(path: seq<Frame>): seq<Item>
    decreases |path|
  {
    if path == [] then []
    else (if path[0].isLeft then [path[0].item] + Items(path[0].sibling) else []) + After(path[1..])
  }

  /** The in-order position of the referenced node. */
  function Pos(c: Cursor): int
    requires c.focus.Node?
  {
    |Before(c.path)| + |Items(c.focus.left)|
  }

  lemma {:induction false} PlugItems(t: Subtree, path: seq<Frame>)
    ensures Items(Plug(t, path)) == Before(path) + Items(t) + After(path)
    decreases |path|
  {
    if path != [] {
      PlugItems(Attach(t, path[0]), path[1..]);
    }
  }

  /** The referenced node sits at position `Pos(c)` of the whole tree. */
  lemma CursorAt(c: Cursor)
    requires c.focus.Node?
    ensures 0 <= Pos(c) < |Items(Whole(c))| && Items(Whole(c))[Pos(c)] == c.focus.item
  {
    PlugItems(c.focus, c.path);
  }

  /** Plugging under one more frame at the top. The twin of
      TourTree.PlugAppend is deliberate: each splay tree keeps its own. */
  lemma {:induction false} PlugAppend(t: Subtree, path: seq<Frame>, f: Frame)
    ensures Plug(t, path + [f]) == Attach(Plug(t, path), f)
    decreases |path|
  {
    if path == [] {
      assert path + [f] == [f];
    } else {
      assert (path + [f])[1..] == path[1..] + [f];
      PlugAppend(Attach(t, path[0]), path[1..], f);
    }
  }

  lemma {:induction false} BeforeAppend(path: seq<Frame>, f: Frame)
    ensures Before(path + [f]) == (if f.isLeft then [] else Items(f.sibling) + [f.item]) + Before(path)
    decreases |path|
  {
    if path == [] {
      assert path + [f] == [f];
    } else {
      assert (path + [f])[1..] == path[1..] + [f];
      BeforeAppend(path[1..], f);
    }
  }

  /** The frames on a path are consistent with a child of the given size. */
  ghost predicate SizedPath(path: seq<Frame>, size: int)
    decreases |path|
  {
    path != [] ==>
      && Sized(path[0].sibling)
      && path[0].size == 1 + size + SizeOf(path[0].sibling)
      && SizedPath(path[1..], path[0].size)
  }

  lemma {:induction false} PlugSized(t: Subtree, path: seq<Frame>)
    ensures Sized(Plug(t, path)) <==> Sized(t) && SizedPath(path, SizeOf(t))
    decreases |path|
  {
    if path != [] {
      PlugSized(Attach(t, path[0]), path[1..]);
    }
  }

  /** Replacing the focus by a subtree with the same items and size keeps
      the whole tree valid and its items unchanged. */
  lemma ReplaceFocus(t: Subtree, t': Subtree, path: seq<Frame>)
    requires Sized(Plug(t, path)) && Sized(t')
    requires Items(t') == Items(t) && SizeOf(t') == SizeOf(t)
    ensures Sized(Plug(t', path)) && Items(Plug(t', path)) == Items(Plug(t, path))
  {
    PlugSized(t, path);
    PlugSized(t', path);
    PlugItems(t, path);
    PlugItems(t', path);
  }

  /** `find_root`: follow the parent pointers up to the root. */
  method FindRoot(c: Cursor) returns (t: Subtree)
    requires c.focus.Node?
    ensures t == Whole(c)
    ensures 0 <= Pos(c) < |Items(t)| && Items(t)[Pos(c)] == c.focus.item
  {
    var x, path := c.focus, c.path;
    while path != []
      invariant Plug(x, path) == Whole(c)
      decreases |path|
    {
      x, path := Attach(x, path[0]), path[1..];
    }
    t := x;
    CursorAt(c);
  }

  // ---------------------------------------------------------------------
  // Splaying

  /** One iteration of the `splay` loop: zig-zig or zig-zag with a
      grandparent, a single rotation without one. */
  function SplayStep(x: Subtree, path: seq<Frame>): (r: Cursor)
    requires x.Node? && path != []
    ensures r.focus.Node? && r.focus.item == x.item
    ensures |r.path| < |path| && (|path| >= 2 ==> r.path == path[2..]) && (|path| == 1 ==> r.path == [])
  {
    var isLeft := path[0].isLeft;
    if |path| >= 2 then
      var pIsLeft := path[1].isLeft;
      if isLeft == pIsLeft then
        Cursor(Rotate(Rotate(Attach(Attach(x, path[0]), path[1]), pIsLeft), isLeft), path[2..])
      else
        Cursor(Rotate(Attach(Rotate(Attach(x, path[0]), isLeft), path[1]), pIsLeft), path[2..])
    else
      Cursor(Rotate(Attach(x, path[0]), isLeft), [])
  }

  lemma SplayStepCorrect(x: Subtree, path: seq<Frame>)
    requires x.Node? && path != [] && Sized(Plug(x, path))
    ensures var r := SplayStep(x, path);
      && Sized(Whole(r)) && Items(Whole(r)) == Items(Plug(x, path))
      && |Before(r.path)| + |Items(r.focus.left)| == |Before(path)| + |Items(x.left)|
  {
    if |path| >= 2 {
      var grandpa := Attach(Attach(x, path[0]), path[1]);
      assert path[1..][1..] == path[2..];
      assert Plug(x, path) == Plug(grandpa, path[2..]);
      PlugSized(grandpa, path[2..]);
      ReplaceFocus(grandpa, SplayStep(x, path).focus, path[2..]);
    } else {
      assert path[1..] == [];
      assert Plug(x, path) == Attach(x, path[0]);
    }
  }

  /** `splay`: rotate the referenced node up to the root. The items are
      unchanged and the node keeps its position. */
  method Splay(c: Cursor) returns (t: Subtree)
    requires c.focus.Node? && Sized(Whole(c))
    ensures t.Node? && t.item == c.focus.item
    ensures Sized(t) && Items(t) == Items(Whole(c))
    ensures |Items(t.left)| == Pos(c)
  {
    var x, path := c.focus, c.path;
    while path != []
      invariant x.Node? && x.item == c.focus.item
      invariant Sized(Plug(x, path)) && Items(Plug(x, path)) == Items(Whole(c))
      invariant |Before(path)| + |Items(x.left)| == Pos(c)
      decreases |path|
    {
      SplayStepCorrect(x, path);
      var r := SplayStep(x, path);
      x, path := r.focus, r.path;
    }
    t := x;
  }

  /** `rightmost`: walk down right children from the referenced node. */
  method Rightmost(c: Cursor) returns (d: Cursor)
    requires c.focus.Node?
    ensures d.focus.Node? && d.focus.right.Nil? && Whole(d) == Whole(c)
    ensures Pos(d) == |Before(c.path)| + |Items(c.focus)| - 1
  {
    d := c;
    while d.focus.right.Node?
      invariant d.focus.Node? && Whole(d) == Whole(c)
      invariant |Before(d.path)| + |Items(d.focus)| == |Before(c.path)| + |Items(c.focus)|
      decreases d.focus
    {
      var x := d.focus;
      d := Cursor(x.right, [Frame(false, x.item, x.size, x.left)] + d.path);
    }
  }

  /** `l` and `r` are sized subtrees whose sequences concatenate to the
      whole tree of `c`, split at its focus: the focus item is the root of
      `l` with nothing to its right (`keepInLeft`), or the root of `r` with
      nothing to its left. */
  ghost predicate SplitAt(c: Cursor, keepInLeft: bool, l: Subtree, r: Subtree)
    requires c.focus.Node?
  {
    && Sized(l) && Sized(r) && Items(l) + Items(r) == Items(Whole(c))
    && (keepInLeft ==> l.Node? && l.item == c.focus.item && l.right.Nil? && |Items(l)| == Pos(c) + 1)
    && (!keepInLeft ==> r.Node? && r.item == c.focus.item && r.left.Nil? && |Items(l)| == Pos(c))
  }

  /** `split(e, keep_in_left)`: splay `e` and detach its right (or left)
      subtree. */
  method Split(c: Cursor, keepInLeft: bool) returns (l: Subtree, r: Subtree)
    requires c.focus.Node? && Sized(Whole(c))
    ensures SplitAt(c, keepInLeft, l, r)
  {
    var s := Splay(c);
    if keepInLeft {
      l, r := Recalc(s.left, s.item, Nil), s.right;
    } else {
      l, r := s.left, Recalc(Nil, s.item, s.right);
    }
  }

  /** `merge(l, r)`: splay the last node of `l` and hang `r` on its right.
      A null side gives the other. */
  method Merge(l: Subtree, r: Subtree) returns (t: Subtree)
    requires Sized(l) && Sized(r)
    ensures Sized(t) && Items(t) == Items(l) + Items(r)
    ensures l.Nil? ==> t == r
    ensures r.Nil? ==> t == l
  {
    if l.Nil? {
      return r;
    }
    if r.Nil? {
      return l;
    }
    var last := Rightmost(Cursor(l, []));
    var m := Splay(last);
    assert |Items(m.right)| == 0;
    t := Recalc(m.left, m.item, r);
  }

  /** `Entry::remove`: splay the node, detach both children and merge them.
      Exactly the item at the node's position is gone. */
  method RemoveAt(c: Cursor) returns (r: Subtree)
    requires c.focus.Node? && Sized(Whole(c))
    ensures Sized(r)
    ensures var s, p := Items(Whole(c)), Pos(c); 0 <= p < |s| && Items(r) == s[..p] + s[p + 1..]
  {
    CursorAt(c);
    var s := Splay(c);
    assert Items(Whole(c)) == Items(s.left) + [s.item] + Items(s.right);
    if s.left.Nil? {
      return s.right;
    }
    if s.right.Nil? {
      return s.left;
    }
    r := Merge(s.left, s.right);
  }

  // ---------------------------------------------------------------------
  // Search

  /** `find(w)`: the node holding `w` if there is one, otherwise the last
      node on the search path for `w`. */
  function Find(t: Subtree, w: nat): (c: Cursor)
    requires t.Node?
    ensures c.focus.Node? && Whole(c) == t
  {
    if t.item.v == w then Cursor(t, [])
    else if w < t.item.v then
      if t.left.Nil? then Cursor(t, [])
      else
        var c := Find(t.left, w);
        var f := Frame(true, t.item, t.size, t.right);
        PlugAppend(c.focus, c.path, f);
        Cursor(c.focus, c.path + [f])
    else
      if t.right.Nil? then Cursor(t, [])
      else
        var c := Find(t.right, w);
        var f := Frame(false, t.item, t.size, t.left);
        PlugAppend(c.focus, c.path, f);
        Cursor(c.focus, c.path + [f])
  }

  /** Where `find(w)` stops in a search tree: at `w` when it is stored, and
      otherwise at a neighbour of `w`, at its predecessor when the node's
      key is smaller (no key in between), at its successor when larger. */
  ghost predicate FoundNeighbour(t: Subtree, w: nat)
    requires t.Node?
  {
    var c, s := Find(t, w), Items(t);
    var p := Pos(c);
    && 0 <= p < |s| && s[p] == c.focus.item
    && (w in Keys(s) ==> c.focus.item.v == w)
    && (c.focus.item.v < w ==> c.focus.right.Nil? && forall j :: p < j < |s| ==> w < s[j].v)
    && (w < c.focus.item.v ==> c.focus.left.Nil? && forall j :: 0 <= j < p ==> s[j].v < w)
  }

  lemma {:induction false} FindNeighbour(t: Subtree, w: nat)
    requires t.Node? && Sorted(Items(t))
    ensures FoundNeighbour(t, w)
  {
    SortedParts(t.left, t.item, t.right);
    if t.item.v == w || (w < t.item.v && t.left.Nil?) || (t.item.v < w && t.right.Nil?) {
      FindHere(t, w);
    } else if w < t.item.v {
      FindNeighbour(t.left, w);
      FindLeft(t, w);
    } else {
      FindNeighbour(t.right, w);
      FindRight(t, w);
    }
  }

  /** `find` stops at the root. */
  lemma FindHere(t: Subtree, w: nat)
    requires t.Node? && Sorted(Items(t))
    requires t.item.v == w || (w < t.item.v && t.left.Nil?) || (t.item.v < w && t.right.Nil?)
    ensures FoundNeighbour(t, w)
  {
    assert Items(t) == Items(t.left) + [t.item] + Items(t.right);
    SortedParts(t.left, t.item, t.right);
    KeysOfNode(t);
  }

  /** `find` goes on into the left subtree. */
  lemma FindLeft(t: Subtree, w: nat)
    requires t.Node? && t.left.Node? && w < t.item.v && Sorted(Items(t))
    requires FoundNeighbour(t.left, w)
    ensures FoundNeighbour(t, w)
  {
    var c, c' := Find(t, w), Find(t.left, w);
    var s, L, R := Items(t), Items(t.left), Items(t.right);
    var nl := |L|;
    assert s == L + [t.item] + R;
    SortedParts(t.left, t.item, t.right);
    KeysOfNode(t);
    assert w !in Keys(R);
    BeforeAppend(c'.path, Frame(true, t.item, t.size, t.right));
    assert Pos(c) == Pos(c');
    assert s[Pos(c)] == L[Pos(c')];
    if c.focus.item.v < w {
      forall j | Pos(c) < j < |s|
        ensures w < s[j].v
      {
        if j < nl {
          assert s[j] == L[j];
        } else if j > nl {
          assert s[j] == R[j - nl - 1];
        }
      }
    }
    if w < c.focus.item.v {
      forall j | 0 <= j < Pos(c)
        ensures s[j].v < w
      {
        assert s[j] == L[j];
      }
    }
  }

  /** `find` goes on into the right subtree. */
  lemma FindRight(t: Subtree, w: nat)
    requires t.Node? && t.right.Node? && t.item.v < w && Sorted(Items(t))
    requires FoundNeighbour(t.right, w)
    ensures FoundNeighbour(t, w)
  {
    var c, c' := Find(t, w), Find(t.right, w);
    var s, L, R := Items(t), Items(t.left), Items(t.right);
    var nl := |L|;
    assert s == L + [t.item] + R;
    SortedParts(t.left, t.item, t.right);
    KeysOfNode(t);
    assert w !in Keys(L);
    BeforeAppend(c'.path, Frame(false, t.item, t.size, t.left));
    ghost var p, p' := Pos(c), Pos(c');
    assert p == nl + 1 + p';
    assert s[p] == R[p'];
    if c.focus.item.v < w {
      forall j | p < j < |s|
        ensures w < s[j].v
      {
        assert s[j] == R[j - nl - 1];
      }
    }
    if w < c.focus.item.v {
      forall j | 0 <= j < p
        ensures s[j].v < w
      {
        if j < nl {
          assert s[j] == L[j];
        } else if j > nl {
          assert s[j] == R[j - nl - 1];
        }
      }
    }
  }

  // ---------------------------------------------------------------------
  // Reference definitions of the set operations

  /** Sorted insertion of an item into a sequence of items. */
  function InsertSorted(s: seq<Item>, it: Item): (r: seq<Item>)
    ensures |r| == |s| + 1
  {
    if s == [] then [it]
    else if it.v < s[0].v then [it] + s
    else [s[0]] + InsertSorted(s[1..], it)
  }

  /** The items without those whose key is `w`. */
  function DeleteKey(s: seq<Item>, w: nat): (r: seq<Item>)
    ensures |r| <= |s|
  {
    if s == [] then []
    else (if s[0].v == w then [] else [s[0]]) + DeleteKey(s[1..], w)
  }

  /** Sorted insertion of a new key keeps the items sorted and adds exactly
      that key. */
  lemma InsertSortedKeeps(s: seq<Item>, it: Item)
    requires Sorted(s) && it.v !in Keys(s)
    ensures Sorted(InsertSorted(s, it)) && Keys(InsertSorted(s, it)) == Keys(s) + {it.v}
    ensures multiset(InsertSorted(s, it)) == multiset(s) + multiset{it}
  {
    InsertSortedKeys(s, it);
    InsertSortedItems(s, it);
    InsertSortedSorted(s, it);
  }

  lemma {:induction false} InsertSortedKeys(s: seq<Item>, it: Item)
    ensures Keys(InsertSorted(s, it)) == Keys(s) + {it.v}
  {
    if s == [] {
      KeysCons(it, []);
    } else if it.v < s[0].v {
      KeysCons(it, s);
    } else {
      InsertSortedKeys(s[1..], it);
      KeysCons(s[0], s[1..]);
      KeysCons(s[0], InsertSorted(s[1..], it));
      assert s == [s[0]] + s[1..];
    }
  }

  lemma {:induction false} InsertSortedItems(s: seq<Item>, it: Item)
    ensures multiset(InsertSorted(s, it)) == multiset(s) + multiset{it}
  {
    if s != [] && it.v >= s[0].v {
      InsertSortedItems(s[1..], it);
      assert s == [s[0]] + s[1..];
    }
  }

  lemma {:induction false} InsertSortedSorted(s: seq<Item>, it: Item)
    requires Sorted(s) && it.v !in Keys(s)
    ensures Sorted(InsertSorted(s, it))
  {
    if s == [] {
    } else if it.v < s[0].v {
      ConsSorted(it, s);
    } else {
      var t := s[1..];
      SortedTail(s);
      assert s[0].v != it.v by {
        assert s[0].v in Keys(s);
      }
      assert it.v !in Keys(t) by {
        KeysCons(s[0], t);
        assert s == [s[0]] + t;
      }
      InsertSortedSorted(t, it);
      var u := InsertSorted(t, it);
      InsertSortedKeys(t, it);
      forall j | 0 <= j < |u|
        ensures s[0].v < u[j].v
      {
        assert u[j].v in Keys(u);
        if u[j].v != it.v {
          var k :| 0 <= k < |t| && t[k].v == u[j].v;
        }
      }
      ConsSorted(s[0], u);
    }
  }

  /** The tail of a sorted sequence is sorted and above its head. */
  lemma SortedTail(s: seq<Item>)
    requires Sorted(s) && s != []
    ensures Sorted(s[1..]) && forall j | 0 <= j < |s[1..]| :: s[0].v < s[1..][j].v
  {
    var t := s[1..];
    forall i, j | 0 <= i < j < |t|
      ensures t[i].v < t[j].v
    {
      assert t[i] == s[i + 1] && t[j] == s[j + 1];
    }
    forall j | 0 <= j < |t|
      ensures s[0].v < t[j].v
    {
      assert t[j] == s[j + 1];
    }
  }

  /** A key below every key of a sorted sequence can go in front of it. */
  lemma ConsSorted(x: Item, u: seq<Item>)
    requires Sorted(u) && forall j | 0 <= j < |u| :: x.v < u[j].v
    ensures Sorted([x] + u)
  {
    var r := [x] + u;
    forall i, j | 0 <= i < j < |r|
      ensures r[i].v < r[j].v
    {
      assert r[j] == u[j - 1];
      if i > 0 {
        assert r[i] == u[i - 1];
      }
    }
  }

  lemma KeysCons(x: Item, s: seq<Item>)
    ensures Keys([x] + s) == {x.v} + Keys(s)
  {
    var r := [x] + s;
    forall w | w in Keys(r)
      ensures w in {x.v} + Keys(s)
    {
      var i :| 0 <= i < |r| && r[i].v == w;
      if i > 0 {
        assert r[i] == s[i - 1];
      }
    }
    forall w | w in Keys(s)
      ensures w in Keys(r)
    {
      var i :| 0 <= i < |s| && s[i].v == w;
      assert r[i + 1] == s[i];
    }
    assert r[0] == x;
  }

  /** Inserting at the place that separates the smaller keys from the larger
      ones is sorted insertion. */
  lemma {:induction false} InsertAt(s: seq<Item>, it: Item, i: int)
    requires 0 <= i <= |s|
    requires forall j :: 0 <= j < i ==> s[j].v < it.v
    requires forall j :: i <= j < |s| ==> it.v < s[j].v
    ensures InsertSorted(s, it) == s[..i] + [it] + s[i..]
  {
    if s == [] {
      assert s[..i] + [it] + s[i..] == [it];
    } else if i == 0 {
      assert it.v < s[0].v;
      assert s[..0] + [it] + s[0..] == [it] + s;
    } else {
      var t := s[1..];
      assert s[0].v < it.v;
      forall j | 0 <= j < i - 1
        ensures t[j].v < it.v
      {
        assert t[j] == s[j + 1];
      }
      forall j | i - 1 <= j < |t|
        ensures it.v < t[j].v
      {
        assert t[j] == s[j + 1];
      }
      InsertAt(t, it, i - 1);
      assert InsertSorted(s, it) == [s[0]] + InsertSorted(t, it);
      assert s[..i] == [s[0]] + t[..i - 1];
      assert s[i..] == t[i - 1..];
    }
  }

  /** Removing the item at the place holding key `w` from a sorted sequence
      deletes the key `w`. */
  lemma {:induction false} DeleteAt(s: seq<Item>, w: nat, p: int)
    requires Sorted(s) && 0 <= p < |s| && s[p].v == w
    ensures DeleteKey(s, w) == s[..p] + s[p + 1..]
  {
    var t := s[1..];
    forall i, j | 0 <= i < j < |t|
      ensures t[i].v < t[j].v
    {
      assert t[i] == s[i + 1] && t[j] == s[j + 1];
    }
    if p == 0 {
      DeleteAbsent(t, w);
      assert s[..0] + s[1..] == t;
    } else {
      DeleteAt(t, w, p - 1);
      assert s[..p] == [s[0]] + t[..p - 1];
      assert s[p + 1..] == t[p..];
    }
  }

  lemma {:induction false} DeleteAbsent(s: seq<Item>, w: nat)
    requires forall j :: 0 <= j < |s| ==> s[j].v != w
    ensures DeleteKey(s, w) == s
  {
    if s != [] {
      DeleteAbsent(s[1..], w);
      assert [s[0]] + s[1..] == s;
    }
  }

  /** What is left after removing one item from a sorted sequence: sorted,
      without that item's key. */
  lemma RemovedSorted(s: seq<Item>, p: int)
    requires Sorted(s) && 0 <= p < |s|
    ensures var r := s[..p] + s[p + 1..]; Sorted(r) && Keys(r) == Keys(s) - {s[p].v}
  {
    var a, b := s[..p], s[p + 1..];
    assert s == a + [s[p]] + b;
    SortedAround(a, s[p], b);
    KeysCat(a + [s[p]], b);
    KeysCat(a, [s[p]]);
    KeysCat(a, b);
    assert [s[p]][0] == s[p];
    assert Keys([s[p]]) == {s[p].v};
    RemovedOrder(s, p);
  }

  lemma RemovedOrder(s: seq<Item>, p: int)
    requires Sorted(s) && 0 <= p < |s|
    ensures Sorted(s[..p] + s[p + 1..])
  {
    var r := s[..p] + s[p + 1..];
    forall i, j | 0 <= i < j < |r|
      ensures r[i].v < r[j].v
    {
      var i', j' := if i < p then i else i + 1, if j < p then j else j + 1;
      assert r[i] == s[i'] && r[j] == s[j'];
    }
  }

  /** The number of keys smaller than `w`. */
  function Rank(s: seq<Item>, w: nat): (n: nat)
    ensures n <= |s|
  {
    if s == [] then 0 else (if s[0].v < w then 1 else 0) + Rank(s[1..], w)
  }

  /** In a sorted sequence the key at place `k` has exactly `k` smaller
      keys: it is the `k`-th smallest, counting from 0. */
  lemma {:induction false} RankAt(s: seq<Item>, k: int)
    requires Sorted(s) && 0 <= k < |s|
    ensures Rank(s, s[k].v) == k
  {
    var t := s[1..];
    forall i, j | 0 <= i < j < |t|
      ensures t[i].v < t[j].v
    {
      assert t[i] == s[i + 1] && t[j] == s[j + 1];
    }
    if k == 0 {
      RankNone(t, s[0].v);
    } else {
      assert t[k - 1] == s[k];
      RankAt(t, k - 1);
    }
  }

  lemma {:induction false} RankNone(s: seq<Item>, w: nat)
    requires forall j :: 0 <= j < |s| ==> w < s[j].v
    ensures Rank(s, w) == 0
  {
    if s != [] {
      RankNone(s[1..], w);
    }
  }

  /** `find(w)` stops at a node holding `w` exactly when `w` is stored. */
  lemma FindKey(t: Subtree, w: nat)
    requires t.Node? && Sorted(Items(t))
    ensures Find(t, w).focus.item.v == w <==> w in Keys(Items(t))
  {
    var c, s := Find(t, w), Items(t);
    FindNeighbour(t, w);
    assert s[Pos(c)] == c.focus.item;
  }

  /** An absent key is inserted just after the node `find` stops at when
      that node's key is smaller, and just before it otherwise. */
  lemma SplitPlace(t: Subtree, it: Item, n: int)
    requires t.Node? && Sorted(Items(t)) && it.v !in Keys(Items(t))
    requires var c := Find(t, it.v); n == if c.focus.item.v < it.v then Pos(c) + 1 else Pos(c)
    ensures 0 <= n <= |Items(t)|
    ensures InsertSorted(Items(t), it) == Items(t)[..n] + [it] + Items(t)[n..]
  {
    var c, s, v := Find(t, it.v), Items(t), it.v;
    var p := Pos(c);
    FindNeighbour(t, v);
    assert s[p].v != v by {
      assert s[p].v in Keys(s);
    }
    if s[p].v < v {
      forall j | 0 <= j < p
        ensures s[j].v < v
      {
        assert s[j].v < s[p].v;
      }
    } else {
      forall j | p < j < |s|
        ensures v < s[j].v
      {
        assert s[p].v < s[j].v;
      }
    }
    InsertAt(s, it, n);
  }

  // ---------------------------------------------------------------------
  // The set of keys

  /** `Tree`: a splay tree of distinct keys, in order, or null (`Nil`). */
  class Tree {
    var root: Subtree

    ghost predicate Valid()
      reads this
    {
      Sized(root) && Sorted(Items(root))
    }

    /** The empty tree. */
    constructor ()
      ensures Valid() && Items(root) == []
    {
      root := Nil;
    }

    /** `add(v, val)`: a new key is put in its place by splitting at the
        last node of its search path and merging the halves around a new
        node; a key already there leaves the tree as it is. */
    method Add(v: nat, val: nat)
      requires Valid()
      modifies this
      ensures Valid()
      ensures v in Keys(old(Items(root))) ==> root == old(root)
      ensures v !in Keys(old(Items(root))) ==> Items(root) == InsertSorted(old(Items(root)), Item(v, val))
    {
      var entry := Recalc(Nil, Item(v, val), Nil);
      if root.Nil? {
        root := entry;
        return;
      }
      ghost var s := Items(root);
      var c := Find(root, v);
      FindKey(root, v);
      if c.focus.item.v == v {
        return;
      }
      var l, r := Split(c, c.focus.item.v < v);
      assert Sized(l) && Sized(r) && Items(l) + Items(r) == s;
      ghost var n := |Items(l)|;
      assert n == if c.focus.item.v < v then Pos(c) + 1 else Pos(c);
      SplitPlace(root, Item(v, val), n);
      ghost var want := InsertSorted(s, Item(v, val));
      assert Items(l) == s[..n] && Items(r) == s[n..];
      assert Items(entry) == [Item(v, val)];
      assert want == Items(l) + Items(entry) + Items(r);
      InsertSortedKeeps(s, Item(v, val));
      var t := Merge(l, entry);
      root := Merge(t, r);
      assert Items(root) == Items(l) + Items(entry) + Items(r);
    }

    /** `remove(v)`: remove the node `find(v)` stops at. For a stored key
        that is the key itself; for an absent key it is a neighbour of it. */
    method Remove(v: nat)
      requires Valid() && root.Node?
      modifies this
      ensures Valid()
      ensures var s, p := old(Items(root)), old(Pos(Find(root, v)));
        0 <= p < |s| && Items(root) == s[..p] + s[p + 1..]
      ensures v in Keys(old(Items(root))) ==> Items(root) == DeleteKey(old(Items(root)), v)
    {
      ghost var s := Items(root);
      var c := Find(root, v);
      FindNeighbour(root, v);
      root := RemoveAt(c);
      RemovedSorted(s, Pos(c));
      if v in Keys(s) {
        DeleteAt(s, v, Pos(c));
      }
    }

    /** `size()`: the root's size is the number of keys. */
    function Size(): (n: int)
      reads this
      requires Valid() && root.Node?
      ensures n == |Items(root)| == |Keys(Items(root))|
    {
      SizeMeaning(root);
      SortedKeysCount(Items(root));
      root.size
    }

    /** `kth(k)`: walk down from the root by the subtree sizes to the item
        at place `k`, the key with exactly `k` smaller keys. */
    method Kth(k: nat) returns (v: nat, value: nat)
      requires Valid() && k < |Items(root)|
      ensures Item(v, value) == Items(root)[k]
      ensures Rank(Items(root), v) == k
    {
      var curr, j := root, k;
      while true
        invariant curr.Node? && Sized(curr) && 0 <= j < |Items(curr)|
        invariant Items(curr)[j] == Items(root)[k]
        decreases curr
      {
        SizeMeaning(curr.left);
        if curr.left.Node? {
          if curr.left.size > j {
            curr := curr.left;
            continue;
          } else {
            j := j - curr.left.size;
          }
        }
        assert Items(curr) == Items(curr.left) + [curr.item] + Items(curr.right);
        if j == 0 {
          v, value := curr.item.v, curr.item.value;
          RankAt(Items(root), k);
          return;
        } else {
          j := j - 1;
          curr := curr.right;
        }
      }
    }

    /** `contains(v)`: false on the empty tree, otherwise whether `find(v)`
        stops at `v`. */
    function Contains(v: nat): (b: bool)
      reads this
      requires Valid()
      ensures b <==> v in Keys(Items(root))
    {
      if root.Nil? then false
      else
        FindKey(root, v);
        Find(root, v).focus.item.v == v
    }
  }

  /** Distinct keys: as many keys as items. */
  lemma {:induction false} SortedKeysCount(s: seq<Item>)
    requires Sorted(s)
    ensures |Keys(s)| == |s|
  {
    if s != [] {
      var t := s[1..];
      assert s == [s[0]] + t;
      forall i, j | 0 <= i < j < |t|
        ensures t[i].v < t[j].v
      {
        assert t[i] == s[i + 1] && t[j] == s[j + 1];
      }
      SortedKeysCount(t);
      KeysCons(s[0], t);
      forall i | 0 <= i < |t|
        ensures t[i].v != s[0].v
      {
        assert t[i] == s[i + 1];
      }
    }
  }
}

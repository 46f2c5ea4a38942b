/**
 * EulerTourForest.java: a spanning forest kept as Euler tours in splay
 * trees, one splay tree per tree of the forest. The Java object holds the
 * list `any` (one occurrence of each vertex) and `anyRoot` (the root that
 * the last `link` returned); the splay trees themselves are reachable only
 * through the occurrences. Here they are the field `trees`, and an
 * occurrence is named by its identity; ghost fields keep the bookkeeping
 * that the invariant `Sound` of ForestTheory explains.
 */
module Forest {

  import opened Wrappers
  import opened TourTree
  import opened EulerTour
  import opened ForestTheory
  import opened ForestSteps
  import opened CutSteps
  import opened TourIteration
  import opened Graph

  /** `new Entry(v)`: a lone occurrence of `v`, with no active edge. */
  function Single(id: nat, v: nat): (t: Tree)
    ensures TourTree.Valid(t) && Seq(t) == [Entry(id, v, 0)] && SizeOf(t) == 1
  {
    Node(Leaf, Entry(id, v, 0), 1, false, Leaf)
  }

  /** `r` is an occurrence and the root of its tree. */
  ghost predicate IsRoot(ts: seq<Tree>, r: nat)
  {
    r in AllIds(ts) && ts[TreeOf(ts, r)].Node? && ts[TreeOf(ts, r)].e.id == r
  }

  /** `anyRoot`, when set, is the root of a tree; when not set, no single
      tree holds two vertices or more. */
  ghost predicate Rooted(F: Layout, anyRoot: Option<nat>)
  {
    && (anyRoot.Some? ==> IsRoot(F.trees, anyRoot.value))
    && (anyRoot.None? ==> F.n <= 1 || |F.trees| >= 2)
  }

  /** The identity at the root of every tree. */
  ghost function Roots(ts: seq<Tree>): (r: seq<Option<nat>>)
    ensures |r| == |ts|
  {
    seq(|ts|, j requires 0 <= j < |ts| => if ts[j].Node? then Some(ts[j].e.id) else None)
  }

  /** Trees that kept their identities and their roots keep every root. */
  lemma RootKept(ts: seq<Tree>, ts': seq<Tree>, r: nat)
    requires IsRoot(ts, r) && IdsApart(ts')
    requires Shape(ts') == Shape(ts) && Roots(ts') == Roots(ts)
    ensures IsRoot(ts', r)
  {
    var j := TreeOf(ts, r);
    assert Shape(ts')[j] == Shape(ts)[j] && Roots(ts')[j] == Roots(ts)[j];
    SkelSets(Seq(ts[j]), Seq(ts'[j]));
    TreeOfUnique(ts', r, j);
  }

  lemma RootsReplace(ts: seq<Tree>, k: int, t: Tree)
    requires 0 <= k < |ts| && t.Node? && ts[k].Node? && t.e.id == ts[k].e.id
    ensures Roots(ts[k := t]) == Roots(ts)
  {
    assert forall j | 0 <= j < |ts| :: Roots(ts[k := t])[j] == Roots(ts)[j];
  }

  /** Trees of the same shape hold the same occurrences at each place. */
  lemma ShapeAt(ts: seq<Tree>, ts': seq<Tree>, j: int, i: int)
    requires Shape(ts') == Shape(ts) && 0 <= j < |ts| && 0 <= i < |Seq(ts[j])|
    ensures |Seq(ts'[j])| == |Seq(ts[j])| && Seq(ts'[j])[i].id == Seq(ts[j])[i].id && Seq(ts'[j])[i].v == Seq(ts[j])[i].v
  {
    assert Shape(ts')[j] == Shape(ts)[j];
    assert |Skel(Seq(ts'[j]))| == |Seq(ts'[j])|;
    assert Skel(Seq(ts'[j]))[i] == Skel(Seq(ts[j]))[i];
  }

  /** The occurrence at place `i` of tree `j` of a loose forest. */
  lemma Occupied(F: Layout, j: int, i: int)
    requires Loose(F) && 0 <= j < |F.trees| && 0 <= i < |Seq(F.trees[j])|
    ensures var e := Seq(F.trees[j])[i];
      && e.id in AllIds(F.trees) && TreeOf(F.trees, e.id) == j
      && e.id in F.vertexOf && F.vertexOf[e.id] == e.v && e.v < F.n
      && Locate(F.trees[j], e.id).focus.e == e
  {
    var s := Seq(F.trees[j]);
    assert s[i] in s;
    VertsAt(s, i);
    TreeOfUnique(F.trees, s[i].id, j);
    IdsAgree(F.trees[j]);
    var c := Locate(F.trees[j], s[i].id);
    CursorAt(c);
    assert s[Pos(c)].id == s[i].id;
  }

  /** The counter updates on a sound forest: the counter of the `any`
      occurrence of `v`, and with it the count of `v`, moves by `d` in a
      tree that keeps its root. */
  lemma Counter(F: Layout, G: Layout, v: nat, k: int, t: Tree, d: int, root: Option<nat>)
    requires Sound(F) && v < F.n && k == TreeOf(F.trees, F.any[v]) && (root.Some? ==> IsRoot(F.trees, root.value))
    requires Moved(F.trees[k], F.any[v], d, t)
    requires G == F.(trees := F.trees[k := t], counts := F.counts[v := F.counts[v] + d])
    ensures Sound(G) && Ends(G) == Ends(F) && Shape(G.trees) == Shape(F.trees)
    ensures root.Some? ==> IsRoot(G.trees, root.value)
  {
    CounterLoose(F, G, v, k, t, d);
    ShapeSound(F, G);
    if root.Some? {
      RootReplaced(F.trees, k, t, root.value);
    }
  }

  /** The counter update keeps the bookkeeping and the shape of the trees. */
  lemma CounterLoose(F: Layout, G: Layout, v: nat, k: int, t: Tree, d: int)
    requires v < F.n && Loose(F) && k == TreeOf(F.trees, F.any[v]) && Moved(F.trees[k], F.any[v], d, t)
    requires G == F.(trees := F.trees[k := t], counts := F.counts[v := F.counts[v] + d])
    ensures Loose(G) && Shape(G.trees) == Shape(F.trees)
  {
    AnyEdges(F, v);
    Recounted(F, G, v, k, t, F.counts[v] + d);
  }

  /** A tree replaced by one of the same shape and the same root keeps the
      roots. */
  lemma RootReplaced(ts: seq<Tree>, k: int, t: Tree, r: nat)
    requires 0 <= k < |ts| && t.Node? && ts[k].Node? && t.e.id == ts[k].e.id
    requires IsRoot(ts, r) && IdsApart(ts[k := t]) && Shape(ts[k := t]) == Shape(ts)
    ensures IsRoot(ts[k := t], r)
  {
    RootsReplace(ts, k, t);
    RootKept(ts, ts[k := t], r);
  }

  lemma UpdateTwice<T>(a: seq<T>, k: int, x: T, y: T)
    requires 0 <= k < |a|
    ensures a[k := x][k := y] == a[k := y]
  {
  }

  /** Dropping tree `ku` forgets what was written there. */
  lemma DropReplaced(ts: seq<Tree>, ts': seq<Tree>, kv: int, ku: int, t: Tree)
    requires 0 <= kv < |ts| && 0 <= ku < |ts| && kv != ku && |ts'| == |ts|
    requires forall j | 0 <= j < |ts| && j != kv && j != ku :: ts'[j] == ts[j]
    ensures Drop(ts'[kv := t], ku) == Drop(ts[kv := t], ku)
  {
    var d, e := Drop(ts'[kv := t], ku), Drop(ts[kv := t], ku);
    assert forall m | 0 <= m < |d| :: d[m] == e[m];
  }

  /** A tree that sits at place `j` of a forest of disjoint trees is rooted
      at its own root. */
  lemma RootAt(ts: seq<Tree>, j: int)
    requires IdsApart(ts) && 0 <= j < |ts| && ts[j].Node?
    ensures IsRoot(ts, ts[j].e.id)
  {
    IdsAgree(ts[j]);
    TreeOfUnique(ts, ts[j].e.id, j);
  }

  /** What `expand(v)` does to the layout `F`, giving `G`: tree `k`, the
      tree of `v`, is read from the `any` occurrence of `v` at place `p` and,
      unless it is a lone occurrence, gains the occurrence `nextId` of `v` at
      its end; `e` is its last occurrence. */
  ghost predicate ExpandStep(F: Layout, G: Layout, v: nat, k: int, p: int, e: nat)
  {
    && v < |F.any| && F.any[v] in AllIds(F.trees) && k == TreeOf(F.trees, F.any[v])
    && 0 <= p < |Seq(F.trees[k])| && Seq(F.trees[k])[p].id == F.any[v] && Seq(F.trees[k])[p].v == v
    && |G.trees| == |F.trees| && (forall j | 0 <= j < |F.trees| && j != k :: G.trees[j] == F.trees[j])
    && Seq(G.trees[k]) == Opened(Seq(F.trees[k]), p, F.nextId)
    && |Seq(G.trees[k])| >= 1 && e == Seq(G.trees[k])[|Seq(G.trees[k])| - 1].id
    && G.nextId == F.nextId + (if |Seq(F.trees[k])| == 1 then 0 else 1)
    && G.vertexOf == (if |Seq(F.trees[k])| == 1 then F.vertexOf else F.vertexOf[F.nextId := v])
    && G.n == F.n && G.any == F.any && G.counts == F.counts && G.mate == F.mate && G.links == F.links
  }

  /** The two ends of a new edge lie in different trees. */
  lemma EndsApart(F: Layout, v: nat, u: nat)
    requires Sound(F) && v < F.n && u < F.n && !Reach(Edges(F), v, u)
    ensures TreeOf(F.trees, F.any[v]) != TreeOf(F.trees, F.any[u])
  {
    ConnectedIffReach(F, v, u);
  }

  /** Expanding `v` leaves the tree of `u` where it was. */
  lemma ExpandKeeps(F: Layout, F1: Layout, v: nat, kv: int, pv: int, l: nat, u: nat)
    requires Loose(F) && Loose(F1) && ExpandStep(F, F1, v, kv, pv, l) && u < F.n
    requires kv != TreeOf(F.trees, F.any[u])
    ensures TreeOf(F1.trees, F1.any[u]) == TreeOf(F.trees, F.any[u])
    ensures F1.trees[TreeOf(F.trees, F.any[u])] == F.trees[TreeOf(F.trees, F.any[u])]
  {
    var ku := TreeOf(F.trees, F.any[u]);
    assert F1.trees[ku] == F.trees[ku];
    TreeOfUnique(F1.trees, F.any[u], ku);
  }

  /** Expanding keeps every recorded occurrence with its vertex. */
  lemma ExpandRecords(F: Layout, G: Layout, v: nat, k: int, p: int, e: nat)
    requires Loose(F) && ExpandStep(F, G, v, k, p, e)
    ensures F.nextId <= G.nextId
    ensures forall id | id in F.vertexOf :: id in G.vertexOf && G.vertexOf[id] == F.vertexOf[id]
  {
  }

  /** Expanding `v` then `u` in two other trees opens both tours at the
      occurrences `any` names, `l` and `r` their last occurrences. */
  lemma ExpandedBoth(F: Layout, F1: Layout, F2: Layout, v: nat, u: nat, kv: int, ku: int, pv: int, pu: int,
                     l: nat, r: nat)
    requires ExpandStep(F, F1, v, kv, pv, l) && ExpandStep(F1, F2, u, ku, pu, r)
    requires 0 <= ku < |F.trees| && kv != ku && F1.trees[ku] == F.trees[ku]
    ensures 0 <= pv < |Seq(F.trees[kv])| && 0 <= pu < |Seq(F.trees[ku])|
    ensures Seq(F.trees[kv])[pv].v == v && Seq(F.trees[ku])[pu].v == u
    ensures Seq(F2.trees[kv]) == Opened(Seq(F.trees[kv]), pv, F.nextId)
    ensures Seq(F2.trees[ku]) == Opened(Seq(F.trees[ku]), pu, F.nextId + (if |Seq(F.trees[kv])| == 1 then 0 else 1))
    ensures var a, b := Seq(F2.trees[kv]), Seq(F2.trees[ku]);
      |a| >= 1 && |b| >= 1 && a[|a| - 1].id == l && b[|b| - 1].id == r
  {
    assert F2.trees[kv] == F1.trees[kv];
  }

  /** Two tours opened at `v` and at `u` are ready to be joined. */
  lemma LinkOpened(F: Layout, F2: Layout, v: nat, u: nat, kv: int, ku: int, pv: int, pu: int, l: nat, r: nat)
    requires Joinable(F, kv, ku) && 0 <= kv < |F2.trees| && 0 <= ku < |F2.trees|
    requires 0 <= pv < |Seq(F.trees[kv])| && 0 <= pu < |Seq(F.trees[ku])|
    requires Seq(F.trees[kv])[pv].v == v && Seq(F.trees[ku])[pu].v == u
    requires Seq(F2.trees[kv]) == Opened(Seq(F.trees[kv]), pv, F.nextId)
    requires Seq(F2.trees[ku]) == Opened(Seq(F.trees[ku]), pu, F.nextId + (if |Seq(F.trees[kv])| == 1 then 0 else 1))
    requires var a, b := Seq(F2.trees[kv]), Seq(F2.trees[ku]);
      |a| >= 1 && |b| >= 1 && a[|a| - 1].id == l && b[|b| - 1].id == r
    ensures var a, b := Seq(F2.trees[kv]), Seq(F2.trees[ku]);
      && LinkReady(F, kv, ku, a, b)
      && a[|a| - 1].id == l && b[|b| - 1].id == r && a[|a| - 1].v == v && b[|b| - 1].v == u
  {
    LinkHalves(F, kv, ku, pv, pu, Seq(F2.trees[kv]), Seq(F2.trees[ku]));
  }

  /** After expanding `v` (`F` to `F1`) and `u` (`F1` to `F2`), the two
      trees are ready to be joined and only they have changed. */
  lemma LinkPrepared(F: Layout, F1: Layout, F2: Layout, v: nat, u: nat, kv: int, ku: int, pv: int, pu: int,
                     l: nat, r: nat)
    requires Sound(F) && v < F.n && u < F.n && kv != TreeOf(F.trees, F.any[u])
    requires Loose(F1) && ExpandStep(F, F1, v, kv, pv, l)
    requires Loose(F2) && ExpandStep(F1, F2, u, ku, pu, r)
    ensures kv != ku && 0 <= kv < |F.trees| && 0 <= ku < |F.trees| && |F2.trees| == |F.trees|
    ensures forall j | 0 <= j < |F.trees| && j != kv && j != ku :: F2.trees[j] == F.trees[j]
    ensures var a, b := Seq(F2.trees[kv]), Seq(F2.trees[ku]);
      && LinkReady(F, kv, ku, a, b)
      && a[|a| - 1].id == l && b[|b| - 1].id == r && a[|a| - 1].v == v && b[|b| - 1].v == u
    ensures forall id | id in F.vertexOf :: id in F2.vertexOf && F2.vertexOf[id] == F.vertexOf[id]
    ensures F2.n == F.n && F2.mate == F.mate && F2.links == F.links && F2.any == F.any && F2.counts == F.counts
  {
    ExpandKeeps(F, F1, v, kv, pv, l, u);
    LinkPrep(F, kv, ku);
    ExpandedBoth(F, F1, F2, v, u, kv, ku, pv, pu, l, r);
    LinkOpened(F, F2, v, u, kv, ku, pv, pu, l, r);
    ExpandRecords(F, F1, v, kv, pv, l);
    ExpandRecords(F1, F2, u, ku, pu, r);
  }

  /** `link` leaves a sound forest, rooted at the root of the joined tree,
      with one tree edge more: from `v` to `u`, under a new handle. */
  lemma LinkFinish(F: Layout, G: Layout, kv: int, ku: int, a: seq<Entry>, b: seq<Entry>, t: Tree, v: nat, u: nat)
    requires Sound(F) && Loose(G) && LinkStep(F, G, kv, ku, a, b, t) && LinkReady(F, kv, ku, a, b)
    requires a[|a| - 1].v == v && b[|b| - 1].v == u
    ensures t.Node? && IsRoot(G.trees, t.e.id) && Sound(G)
    ensures a[|a| - 1].id !in Ends(F) && Ends(G) == Ends(F)[a[|a| - 1].id := (v, u)]
  {
    LinkSound(F, G, kv, ku, a, b, t);
    LinkTour(F, G, kv, ku, a, b, t);
    assert Seq(t)[0] == a[0];
    RootAt(G.trees, LinkSlot(kv, ku));
  }

  /** The layout after `link`, given the layout `F2` in which both ends are
      expanded and the merged tree `t`. */
  ghost function Joining(F2: Layout, kv: int, ku: int, l: nat, r: nat, t: Tree): Layout
    requires 0 <= kv < |F2.trees| && 0 <= ku < |F2.trees|
  {
    F2.(trees := Drop(F2.trees[kv := t], ku), mate := Joined(F2.mate, l, r), links := F2.links[l := r])
  }

  lemma JoiningSteps(F: Layout, F2: Layout, kv: int, ku: int, l: nat, r: nat, t: Tree)
    requires kv != ku && 0 <= kv < |F.trees| && 0 <= ku < |F.trees| && |F2.trees| == |F.trees|
    requires forall j | 0 <= j < |F.trees| && j != kv && j != ku :: F2.trees[j] == F.trees[j]
    requires var a, b := Seq(F2.trees[kv]), Seq(F2.trees[ku]);
      |a| >= 1 && |b| >= 1 && a[|a| - 1].id == l && b[|b| - 1].id == r
    requires forall id | id in F.vertexOf :: id in F2.vertexOf && F2.vertexOf[id] == F.vertexOf[id]
    requires F2.n == F.n && F2.mate == F.mate && F2.links == F.links
    requires Seq(t) == Seq(F2.trees[kv]) + Seq(F2.trees[ku])
    ensures LinkStep(F, Joining(F2, kv, ku, l, r, t), kv, ku, Seq(F2.trees[kv]), Seq(F2.trees[ku]), t)
  {
    DropReplaced(F.trees, F2.trees, kv, ku, t);
  }

  /** The last step of `link`, from the facts `LinkPrepared` leaves. */
  lemma LinkJoined(F: Layout, F2: Layout, kv: int, ku: int, l: nat, r: nat, t: Tree, v: nat, u: nat)
    requires Sound(F) && kv != ku && 0 <= kv < |F.trees| && 0 <= ku < |F.trees| && |F2.trees| == |F.trees|
    requires forall j | 0 <= j < |F.trees| && j != kv && j != ku :: F2.trees[j] == F.trees[j]
    requires var a, b := Seq(F2.trees[kv]), Seq(F2.trees[ku]);
      && LinkReady(F, kv, ku, a, b)
      && a[|a| - 1].id == l && b[|b| - 1].id == r && a[|a| - 1].v == v && b[|b| - 1].v == u
    requires forall id | id in F.vertexOf :: id in F2.vertexOf && F2.vertexOf[id] == F.vertexOf[id]
    requires F2.n == F.n && F2.mate == F.mate && F2.links == F.links
    requires Loose(F2.(trees := Drop(F2.trees[kv := t], ku)))
    requires Seq(t) == Seq(F2.trees[kv]) + Seq(F2.trees[ku])
    ensures var G := Joining(F2, kv, ku, l, r, t);
      && t.Node? && IsRoot(G.trees, t.e.id) && Sound(G)
      && l !in Ends(F) && Ends(G) == Ends(F)[l := (v, u)]
  {
    var a, b := Seq(F2.trees[kv]), Seq(F2.trees[ku]);
    JoiningSteps(F, F2, kv, ku, l, r, t);
    LinkFinish(F, Joining(F2, kv, ku, l, r, t), kv, ku, a, b, t, v, u);
  }

  /** `link` as a whole, from the layouts after each expansion and the
      merged tree. */
  lemma LinkAll(F: Layout, F1: Layout, F2: Layout, v: nat, u: nat, kv: int, ku: int, pv: int, pu: int,
                l: nat, r: nat, t: Tree)
    requires Sound(F) && v < F.n && u < F.n && TreeOf(F.trees, F.any[v]) != TreeOf(F.trees, F.any[u])
    requires Loose(F1) && ExpandStep(F, F1, v, kv, pv, l)
    requires Loose(F2) && ExpandStep(F1, F2, u, ku, pu, r)
    requires 0 <= kv < |F2.trees| && 0 <= ku < |F2.trees|
    requires TourTree.Valid(t) && Seq(t) == Seq(F2.trees[kv]) + Seq(F2.trees[ku])
    ensures var G := Joining(F2, kv, ku, l, r, t);
      && t.Node? && IsRoot(G.trees, t.e.id) && Sound(G)
      && l !in Ends(F) && Ends(G) == Ends(F)[l := (v, u)]
      && G.any == F.any && G.counts == F.counts
  {
    LinkPrepared(F, F1, F2, v, u, kv, ku, pv, pu, l, r);
    MergeLoose(F2, kv, ku, t);
    LinkJoined(F, F2, kv, ku, l, r, t, v, u);
  }

  /** The trees `new EulerTourForest(n)` starts from: every vertex alone
      in its tree, as occurrence `v` of vertex `v`. */
  lemma InitialTrees(n: nat, trees: seq<Tree>)
    requires |trees| == n && forall v | 0 <= v < n :: trees[v] == Single(v, v)
    ensures forall k | 0 <= k < n :: IdSet(trees[k]) == {k} && VertSet(trees[k]) == {k}
    ensures Tours(trees, map[]) && Apart(trees)
    ensures forall k | 0 <= k < n :: trees[k].Node? && Unique(Seq(trees[k]))
  {
    forall k | 0 <= k < n
      ensures IdSet(trees[k]) == {k} && VertSet(trees[k]) == {k}
      ensures Tour(Seq(trees[k]), map[])
    {
      VertsOne(Entry(k, k, 0));
    }
  }

  lemma InitialLoose(n: nat, trees: seq<Tree>, any: seq<nat>, counts: seq<int>, vertexOf: map<nat, nat>)
    requires |trees| == n && |any| == n && |counts| == n
    requires forall v | 0 <= v < n :: trees[v] == Single(v, v) && any[v] == v && counts[v] == 0
    requires forall v | 0 <= v < n :: v in vertexOf && vertexOf[v] == v
    requires forall id | id in vertexOf :: id < n
    ensures Loose(Layout(n, trees, any, counts, vertexOf, n, map[], map[]))
  {
    InitialTrees(n, trees);
    forall v | 0 <= v < n
      ensures any[v] in AllIds(trees)
    {
      AllIdsAt(trees, v, v);
    }
    forall k | 0 <= k < n
      ensures forall e | e in Seq(trees[k]) :: Counted(e, any, counts, vertexOf, n)
    {
      assert Seq(trees[k]) == [Entry(k, k, 0)];
    }
  }

  lemma InitialSound(n: nat, trees: seq<Tree>, any: seq<nat>, counts: seq<int>, vertexOf: map<nat, nat>)
    requires |trees| == n && |any| == n && |counts| == n
    requires forall v | 0 <= v < n :: trees[v] == Single(v, v) && any[v] == v && counts[v] == 0
    requires forall v | 0 <= v < n :: v in vertexOf && vertexOf[v] == v
    requires forall id | id in vertexOf :: id < n
    ensures var F := Layout(n, trees, any, counts, vertexOf, n, map[], map[]);
      Sound(F) && Ends(F) == map[]
  {
    InitialTrees(n, trees);
    InitialLoose(n, trees, any, counts, vertexOf);
  }

  /** A graph of at most one vertex is connected. */
  lemma OneVertexConnected(F: Layout)
    requires F.n <= 1
    ensures AllConnected(F)
  {
    forall v, u | 0 <= v < F.n && 0 <= u < F.n
      ensures Reach(Edges(F), v, u)
    {
      ReachRefl(Edges(F), v);
    }
  }

  /** An active occurrence is the `any` occurrence of its vertex, and the
      vertex has edges. */
  lemma ActiveRecorded(F: Layout, k: int, i: int)
    requires Loose(F) && 0 <= k < |F.trees| && 0 <= i < |Seq(F.trees[k])| && Active(Seq(F.trees[k])[i])
    ensures var e := Seq(F.trees[k])[i]; e.v < F.n && e.id == F.any[e.v] && F.counts[e.v] > 0
  {
    var s := Seq(F.trees[k]);
    assert s[i] in s;
    assert Counted(s[i], F.any, F.counts, F.vertexOf, F.nextId);
  }

  /** What the iterator of `v` yields: each vertex connected to `v` that
      has active edges, once. */
  lemma IteratorYields(F: Layout, v: nat, k: int)
    requires Sound(F) && v < F.n && k == TreeOf(F.trees, F.any[v])
    ensures forall u: nat :: u in ActiveVertices(Seq(F.trees[k])) <==> u in Connected(F, v) && F.counts[u] > 0
    ensures var vs := ActiveVertices(Seq(F.trees[k])); forall i, j :: 0 <= i < j < |vs| ==> vs[i] != vs[j]
  {
    var s := Seq(F.trees[k]);
    Component(F, v, k);
    TreeVerts(F, k);
    forall i | 0 <= i < |s| && Active(s[i])
      ensures s[i].v < F.n && s[i].id == F.any[s[i].v] && F.counts[s[i].v] > 0
    {
      ActiveRecorded(F, k, i);
    }
    forall u: nat
      ensures u in ActiveVertices(s) <==> u in Connected(F, v) && F.counts[u] > 0
    {
      ActiveMembers(s, u);
      if u in ActiveVertices(s) {
        var i :| 0 <= i < |s| && Active(s[i]) && s[i].v == u;
        VertsAt(s, i);
      }
      if u in Connected(F, v) && F.counts[u] > 0 {
        AnyHome(F, u, k);
        var i := Occurrence(F, k, F.any[u]);
        assert s[i] in s;
      }
    }
    forall i, j | 0 <= i < j < |s| && Active(s[i]) && Active(s[j])
      ensures s[i].v != s[j].v
    {
    }
    ActiveOnce(s);
  }

  /** The iterator as written yields only vertices of the tree of `v`,
      which are those connected to `v`. */
  lemma WrittenInTree(F: Layout, v: nat, k: int)
    requires Sound(F) && v < F.n && k == TreeOf(F.trees, F.any[v])
    ensures forall x | x in WrittenOrder(F.trees[k]) :: x in Connected(F, v)
  {
    var s := Seq(F.trees[k]);
    Component(F, v, k);
    forall x | x in WrittenOrder(F.trees[k])
      ensures x in Verts(s)
    {
      if x in ActiveVertices(s) {
        ActiveMembers(s, x);
        var i :| 0 <= i < |s| && Active(s[i]) && s[i].v == x;
        VertsAt(s, i);
      } else {
        VertsAt(s, 0);
      }
    }
  }

  /** The iterator as written yields every active vertex of the tour. */
  lemma WrittenCovers(t: Tree)
    ensures forall x | x in ActiveVertices(Seq(t)) :: x in WrittenOrder(t)
  {
    var s := Seq(t);
    if s != [] {
      assert ActiveVertices(s) == (if Active(s[0]) then [s[0].v] else []) + ActiveVertices(s[1..]);
    }
  }

  /** `TreeEdge`: the handle of a tree edge and its mate, as `link`
      returns them; `cut` clears both. */
  class TreeEdge {
    var edge: Option<nat>
    var twin: Option<nat>

    constructor (edge: nat, twin: nat)
      ensures this.edge == Some(edge) && this.twin == Some(twin)
    {
      this.edge := Some(edge);
      this.twin := Some(twin);
    }
  }

  class EulerTourForest {
    const n: nat
    var trees: seq<Tree>
    var any: seq<nat>
    var anyRoot: Option<nat>
    var nextId: nat
    ghost var counts: seq<int>
    ghost var vertexOf: map<nat, nat>
    ghost var mate: map<nat, nat>
    ghost var links: map<nat, nat>

    ghost function State(): Layout
      reads this
    {
      Layout(n, trees, any, counts, vertexOf, nextId, mate, links)
    }

    /** A sound forest with a fitting `anyRoot` (Rooted). */
    ghost predicate Valid()
      reads this
    {
      Sound(State()) && Rooted(State(), anyRoot)
    }

    /** Every vertex alone, with no tree edge and no active edge. */
    constructor (n: nat)
      ensures Valid() && this.n == n && |trees| == n && anyRoot.None?
      ensures Ends(State()) == map[] && links == map[]
      ensures forall v | 0 <= v < n :: counts[v] == 0
    {
      var ts: seq<Tree> := [];
      var a: seq<nat> := [];
      ghost var cs: seq<int> := [];
      ghost var vo: map<nat, nat> := map[];
      var i := 0;
      while i < n
        invariant i <= n && |ts| == i && |a| == i && |cs| == i
        invariant forall v | 0 <= v < i :: ts[v] == Single(v, v) && a[v] == v && cs[v] == 0
        invariant forall v | 0 <= v < i :: v in vo && vo[v] == v
        invariant forall id | id in vo :: id < i
      {
        ts := ts + [Single(i, i)];
        a := a + [i];
        cs := cs + [0];
        vo := vo[i := i];
        i := i + 1;
      }
      this.n := n;
      trees := ts;
      any := a;
      anyRoot := None;
      nextId := n;
      counts := cs;
      vertexOf := vo;
      mate := map[];
      links := map[];
      new;
      InitialSound(n, ts, a, cs, vo);
    }

    /** `isConnected()` as written: `anyRoot` is set and its tree has the
        2n - 2 occurrences of a tour of all n vertices. */
    function IsAllConnectedAsWritten(): (b: bool)
      reads this
      requires Valid()
      ensures b <==> n >= 2 && AllConnected(State())
    {
      if anyRoot.None? then
        if n >= 2 then NotAllConnected(State()); false else false
      else
        var k := TreeOf(trees, anyRoot.value);
        AggregatesMeaning(trees[k]);
        if n >= 2 then WholeTree(State(), k); trees[k].size == 2 * (n - 1)
        else trees[k].size == 2 * (n - 1)
    }

    /** `isConnected()` with the case of at most one vertex, which is
        connected, answered as such. */
    function IsAllConnected(): (b: bool)
      reads this
      requires Valid()
      ensures b <==> AllConnected(State())
    {
      if n <= 1 then OneVertexConnected(State()); true
      else IsAllConnectedAsWritten()
    }

    /** `isConnected(v, u)`: the tree edges connect `v` and `u`. */
    function IsConnected(v: nat, u: nat): (b: bool)
      reads this
      requires Valid() && v < n && u < n
      ensures b <==> Reach(Edges(State()), v, u)
    {
      ConnectedIffReach(State(), v, u);
      IsAllConnectedAsWritten() || TreeOf(trees, any[v]) == TreeOf(trees, any[u])
    }

    /** `size(v)`: the number of occurrences in the tour of `v`, 1 for a
        vertex alone and 2c - 2 for a tree of c vertices. */
    function Size(v: nat): (r: int)
      reads this
      requires Valid() && v < n
      ensures var c := |Connected(State(), v)|; r == if c == 1 then 1 else 2 * c - 2
    {
      var k := TreeOf(trees, any[v]);
      AggregatesMeaning(trees[k]);
      ComponentSize(State(), v, k);
      trees[k].size
    }

    /** `changeEdges(v, c)`: the count of `v`, held by the counter of its
        `any` occurrence, becomes `c`. Used halfway through `cut`, so only
        the loose invariant is asked for. */
    method ChangeEdges(v: nat, c: int)
      requires Loose(State()) && v < n
      modifies this
      ensures Loose(State()) && Shape(trees) == old(Shape(trees))
      ensures counts == old(counts)[v := c]
      ensures any == old(any) && anyRoot == old(anyRoot) && nextId == old(nextId)
      ensures vertexOf == old(vertexOf) && mate == old(mate) && links == old(links)
    {
      var k := TreeOf(trees, any[v]);
      var t := SetEdges(trees[k], any[v], c);
      Recounted(State(), State().(trees := trees[k := t], counts := counts[v := c]), v, k, t, c);
      trees := trees[k := t];
      counts := counts[v := c];
    }

    /** `incrementEdges(v)`: one more active edge at `v`; the tree edges
        stay. */
    method IncrementEdges(v: nat)
      requires Valid() && v < n
      modifies this
      ensures counts == old(counts)[v := old(counts)[v] + 1]
      ensures any == old(any) && anyRoot == old(anyRoot) && nextId == old(nextId)
      ensures vertexOf == old(vertexOf) && mate == old(mate) && links == old(links)
      ensures Ends(State()) == old(Ends(State())) && Shape(trees) == old(Shape(trees))
      ensures Valid()
    {
      ghost var F := State();
      var ts := trees;
      var k := TreeOf(ts, any[v]);
      var t := Increment(ts[k], any[v]);
      Tally(F, k, t, v, 1);
    }

    /** `decrementEdges(v)`: one active edge fewer at `v`; the tree edges
        stay. */
    method DecrementEdges(v: nat)
      requires Valid() && v < n
      modifies this
      ensures counts == old(counts)[v := old(counts)[v] - 1]
      ensures any == old(any) && anyRoot == old(anyRoot) && nextId == old(nextId)
      ensures vertexOf == old(vertexOf) && mate == old(mate) && links == old(links)
      ensures Ends(State()) == old(Ends(State())) && Shape(trees) == old(Shape(trees))
      ensures Valid()
    {
      ghost var F := State();
      var ts := trees;
      var k := TreeOf(ts, any[v]);
      var t := Decrement(ts[k], any[v]);
      Tally(F, k, t, v, -1);
    }

    /** `changeAny(e)`: the occurrence `e`, at place `i` of tree `j`, becomes
        the `any` occurrence of its vertex, and takes the vertex's counter
        with it. */
    method ChangeAny(e: nat, ghost j: int, ghost i: int)
      requires Loose(State()) && 0 <= j < |trees| && 0 <= i < |Seq(trees[j])| && Seq(trees[j])[i].id == e
      modifies this
      ensures Loose(State()) && Shape(trees) == old(Shape(trees))
      ensures old(Seq(trees[j])[i].v) < |old(any)|
      ensures any == old(any)[old(Seq(trees[j])[i].v) := e]
      ensures counts == old(counts) && anyRoot == old(anyRoot) && nextId == old(nextId)
      ensures vertexOf == old(vertexOf) && mate == old(mate) && links == old(links)
    {
      ghost var F := State();
      Occupied(F, j, i);
      var v := Locate(trees[TreeOf(trees, e)], e).focus.e.v;
      var edges := EdgesOf(trees[TreeOf(trees, any[v])], any[v]);
      AnyEdges(F, v);
      ChangeEdges(v, 0);
      ShapeAt(F.trees, trees, j, i);
      Occupied(State(), j, i);
      Repointed(State(), v, e);
      any := any[v := e];
      ChangeEdges(v, edges);
    }

    /** `makeRoot(v)`: split the tour of `v` just before its `any`
        occurrence and merge the halves the other way round, so that the
        tour starts at that occurrence. Returns the root of the tree. */
    method MakeRoot(v: nat) returns (root: nat, k: nat, ghost p: int)
      requires Loose(State()) && v < n
      modifies this
      ensures Loose(State())
      ensures k == old(TreeOf(trees, any[v])) && |trees| == old(|trees|) && trees == old(trees)[k := trees[k]]
      ensures 0 <= p < old(|Seq(trees[k])|) && old(Seq(trees[k])[p].id) == old(any[v])
      ensures Seq(trees[k]) == Rotated(old(Seq(trees[k])), p)
      ensures trees[k].Node? && trees[k].e.id == root
      ensures any == old(any) && anyRoot == old(anyRoot) && counts == old(counts) && nextId == old(nextId)
      ensures vertexOf == old(vertexOf) && mate == old(mate) && links == old(links)
    {
      ghost var F := State();
      var ts := trees;
      k := TreeOf(ts, any[v]);
      ghost var c := Locate(ts[k], any[v]);
      CursorAt(c);
      p := Pos(c);
      var l, r := Split(ts[k], any[v], false);
      assert TourTree.Valid(l) && TourTree.Valid(r) && Seq(l) + Seq(r) == Seq(ts[k]) && |Seq(l)| == p;
      var t := Merge(r, l);
      ghost var s := Seq(ts[k]);
      assert Seq(l) == s[..p] && Seq(r) == s[p..];
      RotateLoose(F, k, p, t);
      trees := ts[k := t];
      root := t.e.id;
    }

    /** The second half of `expand(v)`: merge a new occurrence of `v`, with
        a fresh identity, at the end of tree `k`. */
    method AppendOccurrence(v: nat, k: nat) returns (e: nat)
      requires Loose(State()) && v < n && k < |trees|
      modifies this
      ensures Loose(State())
      ensures |trees| == old(|trees|) && trees == old(trees)[k := trees[k]]
      ensures Seq(trees[k]) == old(Seq(trees[k])) + [Entry(old(nextId), v, 0)]
      ensures e == old(nextId) && nextId == old(nextId) + 1 && vertexOf == old(vertexOf)[old(nextId) := v]
      ensures any == old(any) && anyRoot == old(anyRoot) && counts == old(counts)
      ensures mate == old(mate) && links == old(links)
    {
      var ts := trees;
      var t := Merge(ts[k], Single(nextId, v));
      ExpandLoose(State(), k, v, t);
      trees := ts[k := t];
      vertexOf := vertexOf[nextId := v];
      e := nextId;
      nextId := nextId + 1;
    }

    /** `expand(v)`: `makeRoot(v)`, then, unless the tour is a lone
        occurrence, a new occurrence of `v` at its end. Returns the last
        occurrence of the tour, the one a new edge will hang on. */
    method Expand(v: nat) returns (e: nat, k: nat, ghost p: int)
      requires Loose(State()) && v < n
      modifies this
      ensures Loose(State()) && anyRoot == old(anyRoot)
      ensures ExpandStep(old(State()), State(), v, k, p, e)
    {
      ghost var F := State();
      var root;
      root, k, p := MakeRoot(v);
      Occupied(F, k, p);
      AggregatesMeaning(trees[k]);
      if trees[k].size == 1 {
        AggregatesMeaning(trees[k].left);
        AggregatesMeaning(trees[k].right);
        assert Seq(trees[k]) == [trees[k].e];
        e := root;
      } else {
        ghost var ts := trees;
        e := AppendOccurrence(v, k);
        UpdateTwice(F.trees, k, ts[k], trees[k]);
      }
    }

    /** `link(v, u)`: expand both ends, merge the two tours into one, and
        hand out the two new last occurrences as the handle of the new tree
        edge and its mate. `v` and `u` must not be connected already. */
    method Link(v: nat, u: nat) returns (edge: TreeEdge)
      requires Valid() && v < n && u < n && !Reach(Edges(State()), v, u)
      modifies this
      ensures Valid() && fresh(edge) && edge.edge.Some? && edge.twin.Some?
      ensures edge.edge.value !in old(Ends(State()))
      ensures Ends(State()) == old(Ends(State()))[edge.edge.value := (v, u)]
      ensures links == old(links)[edge.edge.value := edge.twin.value]
      ensures any == old(any) && counts == old(counts) && anyRoot.Some?
    {
      ghost var F := State();
      EndsApart(F, v, u);
      var l, kv, pv := Expand(v);
      ghost var F1 := State();
      var r, ku, pu := Expand(u);
      ghost var F2 := State();
      var ts := trees;
      var t := Merge(ts[kv], ts[ku]);
      LinkAll(F, F1, F2, v, u, kv, ku, pv, pu, l, r, t);
      Install(Drop(ts[kv := t], ku), Joined(mate, l, r), links[l := r], Some(t.e.id));
      edge := new TreeEdge(l, r);
    }

    /** `cut(edge)`: for a live handle, cut the tree edge it stands for and
        clear the handle; a cleared handle is left alone. */
    method Cut(edge: TreeEdge)
      requires Valid()
      requires edge.edge.Some? ==> edge.twin.Some? && edge.edge.value in links && links[edge.edge.value] == edge.twin.value
      modifies this, edge
      ensures Valid() && edge.edge.None? && (old(edge.edge).Some? ==> edge.twin.None?)
      ensures old(edge.edge).Some? ==> Ends(State()) == old(Ends(State())) - {old(edge.edge).value} && anyRoot.None?
      ensures old(edge.edge).Some? ==> links == old(links) - {old(edge.edge).value}
      ensures old(edge.edge).None? ==> State() == old(State()) && anyRoot == old(anyRoot)
      ensures counts == old(counts)
    {
      if edge.edge.Some? {
        CutBetween(edge.edge.value, edge.twin.value);
        edge.edge := None;
        edge.twin := None;
      }
    }

    /** `cut(first, last)`, `first` the handle of a tree edge and `last` its
        mate: split the tour at both, remove the earlier of the two and join
        the occurrences around the later one, then remove the later one from
        the occurrences between them. The tree edge is gone and `anyRoot`
        is cleared. */
    method CutBetween(first: nat, last: nat)
      requires Valid() && first in links && last == links[first]
      modifies this
      ensures Valid() && Ends(State()) == old(Ends(State())) - {first} && links == old(links) - {first}
      ensures counts == old(counts) && anyRoot.None?
    {
      ghost var F := State();
      ClearRoot();
      CutSplit(F, first, last);
    }

    /** `anyRoot` is forgotten, the rest is left alone. */
    method ClearRoot()
      modifies this
      ensures State() == old(State()) && anyRoot.None?
    {
      anyRoot := None;
    }

    /** `cut` once `anyRoot` is cleared: the tour of the tree edge with
        handle `first` and mate `last` is split at both. */
    method CutSplit(ghost F: Layout, first: nat, last: nat)
      requires first in F.links && last == F.links[first] && State() == F && anyRoot.None? && Sound(F)
      modifies this
      ensures Valid() && Ends(State()) == Ends(F) - {first} && links == F.links - {first}
      ensures counts == F.counts && anyRoot.None?
    {
      ghost var h := LinkHome(F, first);
      TreeOfUnique(trees, first, h);
      var k, i2, i3, hasC, p, q := SplitAround(first, last);
      ghost var s := Seq(F.trees[k]);
      CutPair(F.links, F.mate, first, s[p].id, s[q].id);
      MatesNeighbours(s, F.mate, p, q);
      CutPieces(F, k, i2, i3, hasC, p, q, first);
    }

    /** `cut` on the pieces `SplitAround` left, the earlier mate at place `p`
        and the later at `q` of tree `k`'s old tour. */
    method CutPieces(ghost F: Layout, k: nat, i2: nat, i3: nat, hasC: bool, ghost p: int, ghost q: int, ghost l: nat)
      requires Pieces(F, State(), k, p, q, i2, i3) && l in F.links
      requires (hasC <==> q + 1 < |Seq(F.trees[k])|) && CutNeighbours(Seq(F.trees[k]), p, q)
      requires var s := Seq(F.trees[k]);
        (s[p].id == l && s[q].id == F.links[l]) || (s[p].id == F.links[l] && s[q].id == l)
      requires anyRoot.None? && Sound(F) && Loose(State())
      modifies this
      ensures Valid() && Ends(State()) == Ends(F) - {l} && links == F.links - {l}
      ensures counts == old(counts) && anyRoot.None?
    {
      DetachOuter(F, k, i2, i3, hasC, p, q);
      ghost var sh := Shape(trees);
      CutLater(F, k, p, q, sh);
      ForgetPair(F, sh, k, p, q, l);
    }

    /** The end of `cut`, once the outer arc is in place: `cutoff` of the
        later mate, the last occurrence of the last tree. */
    method CutLater(ghost F: Layout, ghost k: int, ghost p: int, ghost q: int, ghost sh: seq<seq<(nat, nat)>>)
      requires OuterDone(F, State(), k, p, q) && CutNeighbours(Seq(F.trees[k]), p, q)
      requires sh == Shape(trees) && Loose(State())
      modifies this
      ensures Loose(State())
      ensures Shape(trees) == CutOffShape(sh, |F.trees|, q - p - 1)
      ensures counts == old(counts) && anyRoot == old(anyRoot) && vertexOf == old(vertexOf)
    {
      ghost var G := State();
      InnerReady(F, G, k, p, q);
      ghost var N, m := |F.trees|, q - p - 1;
      assert N == |trees| - 1 && |Seq(trees[N])| == m + 1;
      CutOffLast(m, N, sh);
    }

    /** The pair of mates `cut` took out, and its handle `l`, are
        forgotten. */
    method ForgetPair(ghost F: Layout, ghost sh: seq<seq<(nat, nat)>>, ghost k: int, ghost p: int, ghost q: int, ghost l: nat)
      requires l in F.links && 0 <= k < |F.trees|
      requires var s := Seq(F.trees[k]);
        && 0 <= p < q < |s|
        && ((s[p].id == l && s[q].id == F.links[l]) || (s[p].id == F.links[l] && s[q].id == l))
        && sh == CutShape(F, k, p, q, Skel(s[p + 1..q + 1]))
      requires Shape(trees) == CutOffShape(sh, |F.trees|, q - p - 1)
      requires n == F.n && vertexOf == F.vertexOf && anyRoot.None?
      requires Sound(F) && Loose(State())
      modifies this
      ensures Valid() && Ends(State()) == Ends(F) - {l} && links == F.links - {l}
      ensures counts == old(counts) && anyRoot.None?
    {
      ghost var G3 := State();
      Forget(F.mate - {l, F.links[l]}, F.links - {l});
      CutFinish(F, sh, G3, State(), k, p, q, l);
    }

    /** `cutoff(y, null)` for `y` the last occurrence, at place `m`, of the
        last tree, whose first occurrence is of the same vertex. */
    method CutOffLast(ghost m: int, ghost N: int, ghost sh: seq<seq<(nat, nat)>>)
      requires Loose(State()) && N == |trees| - 1 >= 0 && sh == Shape(trees)
      requires var t := Seq(trees[N]); |t| == m + 1 && (|t| >= 2 ==> t[0].v == t[m].v)
      modifies this
      ensures Loose(State()) && |trees| == old(|trees|)
      ensures |sh[N]| == m + 1 && Shape(trees) == CutOffShape(sh, N, m)
      ensures counts == old(counts) && anyRoot == old(anyRoot) && nextId == old(nextId)
      ensures vertexOf == old(vertexOf) && mate == old(mate) && links == old(links)
    {
      var y := Rightmost(Cursor(trees[|trees| - 1], []));
      CursorAt(y);
      CutOff(y.focus.e.id, None, |trees| - 1, m, 0);
    }

    /** Sets the mates and the handles. */
    method Forget(ghost mate': map<nat, nat>, ghost links': map<nat, nat>)
      modifies this
      ensures State() == old(State()).(mate := mate', links := links') && anyRoot == old(anyRoot)
    {
      mate, links := mate', links';
    }

    /** The counter of `v` moves by `d`, tree `k` being replaced by `t`,
        the tree of `v`'s `any` occurrence with its counter moved. */
    method Tally(ghost F: Layout, k: nat, t: Tree, v: nat, ghost d: int)
      requires State() == F && v < F.n && (anyRoot.Some? ==> IsRoot(F.trees, anyRoot.value))
      requires (anyRoot.None? ==> n <= 1 || |trees| >= 2) && Sound(F)
      requires k == TreeOf(F.trees, F.any[v]) && Moved(F.trees[k], F.any[v], d, t)
      modifies this
      ensures counts == F.counts[v := F.counts[v] + d] && trees == F.trees[k := t]
      ensures any == F.any && anyRoot == old(anyRoot) && nextId == F.nextId
      ensures vertexOf == F.vertexOf && mate == F.mate && links == F.links
      ensures Ends(State()) == Ends(F) && Shape(trees) == Shape(F.trees) && Valid()
    {
      Counter(F, F.(trees := F.trees[k := t], counts := F.counts[v := F.counts[v] + d]), v, k, t, d, anyRoot);
      Retally(trees[k := t], F.counts[v := F.counts[v] + d]);
    }

    /** Sets the trees and the counts at once. */
    method Retally(ts: seq<Tree>, ghost counts': seq<int>)
      modifies this
      ensures State() == old(State()).(trees := ts, counts := counts') && anyRoot == old(anyRoot)
    {
      trees, counts := ts, counts';
    }

    /** Sets the trees, the mates, the handles and `anyRoot` at once. */
    method Install(ts: seq<Tree>, ghost mate': map<nat, nat>, ghost links': map<nat, nat>, root: Option<nat>)
      modifies this
      ensures State() == old(State()).(trees := ts, mate := mate', links := links') && anyRoot == root
    {
      trees, mate, links, anyRoot := ts, mate', links', root;
    }

    /** `split(e, true)` on tree `k`, which holds `e`: the occurrences up
        to `e` stay, the rest, if any, become a new last tree. */
    method SplitOff(k: nat, e: nat) returns (rest: bool, ghost i: int)
      requires Loose(State()) && k < |trees| && e in IdSet(trees[k])
      modifies this
      ensures Loose(State()) && SplitStep(old(State()), State(), k, e, i, rest) && anyRoot == old(anyRoot)
    {
      ghost var F := State();
      var ts := trees;
      IdsAgree(ts[k]);
      var l, r := Split(ts[k], e, true);
      ghost var c := Locate(ts[k], e);
      CursorAt(c);
      i := Pos(c);
      ghost var s := Seq(ts[k]);
      assert Seq(l) == s[..i + 1] && Seq(r) == s[i + 1..];
      if r.Leaf? {
        rest := false;
        SameLoose(F, k, l);
        trees := ts[k := l];
      } else {
        rest := true;
        SplitLoose(F, k, l, r);
        trees := ts[k := l] + [r];
      }
    }

    /** The two splits of `cut`, at `first` and at `last`, two occurrences
        of one tree `k`: the tree is left in three pieces, the occurrences
        up to the earlier of the two at `k`, those up to the later one at
        `i2`, and the rest, when there is any (`hasC`), at `i3`. */
    method SplitAround(first: nat, last: nat) returns (k: nat, i2: nat, i3: nat, hasC: bool, ghost p: int, ghost q: int)
      requires Loose(State()) && first in AllIds(trees) && last in IdSet(trees[TreeOf(trees, first)]) && last != first
      modifies this
      ensures Loose(State()) && Pieces(old(State()), State(), k, p, q, i2, i3) && anyRoot == old(anyRoot)
      ensures k == old(TreeOf(trees, first)) && (hasC <==> q + 1 < old(|Seq(trees[k])|))
      ensures var s := old(Seq(trees[k]));
        (s[p].id == first && s[q].id == last) || (s[p].id == last && s[q].id == first)
    {
      ghost var F := State();
      var N := |trees|;
      k := TreeOf(trees, first);
      var rest1, i1 := SplitOff(k, first);
      ghost var F1 := State();
      SplitWhere(F, F1, k, first, i1, rest1, last);
      var rightOrdered := rest1 && TreeOf(trees, last) == |trees| - 1;
      if rightOrdered {
        var rest2, i' := SplitOff(|trees| - 1, last);
        p, q := i1, i1 + 1 + i';
        i2, i3, hasC := N, N + 1, rest2;
        PiecesRight(F, F1, State(), k, first, last, i1, i', rest2, p, q, i2, i3);
      } else {
        var rest2, i' := SplitOff(k, last);
        assert Seq(F.trees[k])[..i1 + 1][i1].id == first;
        p, q := i', i1;
        i2, i3, hasC := |trees| - 1, N, rest1;
        PiecesLeft(F, F1, State(), k, first, last, i1, rest1, i', p, q, i2, i3);
      }
    }

    /** `e.remove()` for the occurrence `e` at place `i` of tree `j`, which
        is not the `any` occurrence of a vertex: the tree loses it. */
    method RemoveAt(e: nat, ghost j: int, ghost i: int)
      requires Loose(State()) && 0 <= j < |trees|
      requires var s := Seq(trees[j]); 0 <= i < |s| && s[i].id == e && |s| >= 2
      requires forall v | 0 <= v < n :: any[v] != e
      modifies this
      ensures Loose(State()) && |trees| == old(|trees|)
      ensures i < |old(Shape(trees))[j]| && Shape(trees) == old(Shape(trees))[j := Without(old(Shape(trees))[j], i)]
      ensures any == old(any) && counts == old(counts) && anyRoot == old(anyRoot) && nextId == old(nextId)
      ensures vertexOf == old(vertexOf) && mate == old(mate) && links == old(links)
    {
      ghost var F := State();
      ghost var s := Seq(trees[j]);
      Occupied(F, j, i);
      var ts := trees;
      var k := TreeOf(ts, e);
      var t := Remove(ts[k], e);
      assert Pos(Locate(ts[k], e)) == i;
      RemoveLoose(F, k, i, t);
      ShapeUpdate(ts, k, t);
      SkelWithout(s, i);
      trees := ts[k := t];
    }

    /** `cutoff(e, replacement)` for the occurrence `e` at place `i` of tree
        `j`: nothing when it is a lone occurrence; otherwise, if it is the
        `any` occurrence of its vertex, the role passes to `replacement`, or
        when there is none to the first occurrence of the tree (either at
        place `ri`, of the same vertex), and `e` is removed. */
    method CutOff(e: nat, replacement: Option<nat>, ghost j: int, ghost i: int, ghost ri: int)
      requires Loose(State()) && 0 <= j < |trees|
      requires var s := Seq(trees[j]); 0 <= i < |s| && s[i].id == e
      requires var s := Seq(trees[j]);
        |s| >= 2 && s[i].v < |any| && any[s[i].v] == e ==>
          && 0 <= ri < |s| && ri != i && s[ri].v == s[i].v
          && (if replacement.Some? then s[ri].id == replacement.value else ri == 0)
      modifies this
      ensures Loose(State()) && |trees| == old(|trees|)
      ensures var sk := old(Shape(trees))[j];
        i < |sk| && Shape(trees) == old(Shape(trees))[j := if |sk| == 1 then sk else Without(sk, i)]
      ensures counts == old(counts) && anyRoot == old(anyRoot) && nextId == old(nextId)
      ensures vertexOf == old(vertexOf) && mate == old(mate) && links == old(links)
    {
      ghost var F := State();
      ghost var s := Seq(trees[j]);
      Occupied(F, j, i);
      var k := TreeOf(trees, e);
      var c := Locate(trees[k], e);
      if IsSingleton(c) {
        return;
      }
      var v := c.focus.e.v;
      if any[v] == e {
        if replacement.None? {
          var first := Leftmost(Cursor(trees[k], []));
          CursorAt(first);
          ChangeAny(first.focus.e.id, j, 0);
        } else {
          ChangeAny(replacement.value, j, ri);
        }
        ShapeAt(F.trees, trees, j, i);
        ShapeAt(F.trees, trees, j, ri);
      } else {
        assert s[i] == c.focus.e;
      }
      AnyElsewhere(State(), j, i);
      RemoveAt(e, j, i);
    }

    /** Model-only: the lone occurrence that is tree `k`, which no vertex
        points at any more, is forgotten, and tree `j` takes its place. */
    method Discard(k: nat, j: nat)
      requires Loose(State()) && k < |trees| && j < |trees| && k != j && |Seq(trees[k])| == 1
      requires forall v | 0 <= v < n :: any[v] != Seq(trees[k])[0].id
      modifies this
      ensures Loose(State()) && trees == Drop(old(trees)[k := old(trees)[j]], j)
      ensures any == old(any) && counts == old(counts) && anyRoot == old(anyRoot) && nextId == old(nextId)
      ensures vertexOf == old(vertexOf) && mate == old(mate) && links == old(links)
    {
      DiscardLoose(State(), k, j);
      trees := Drop(trees[k := trees[j]], j);
    }

    /** The middle of `cut`, on the pieces `SplitAround` left: the earlier
        mate, the last occurrence of tree `k`, goes, and the occurrences
        before it and those after the later mate are one tree again. */
    method DetachOuter(ghost F: Layout, k: nat, i2: nat, i3: nat, hasC: bool, ghost p: int, ghost q: int)
      requires Loose(State()) && Pieces(F, State(), k, p, q, i2, i3)
      requires (hasC <==> q + 1 < |Seq(F.trees[k])|) && CutNeighbours(Seq(F.trees[k]), p, q)
      modifies this
      ensures Loose(State()) && OuterDone(F, State(), k, p, q)
      ensures counts == old(counts) && anyRoot == old(anyRoot)
    {
      var toRemove := Rightmost(Cursor(trees[k], []));
      CursorAt(toRemove);
      if IsSingleton(toRemove) {
        DetachAlone(F, k, i2, i3, hasC, p, q);
      } else {
        DetachInside(F, k, i2, i3, hasC, p, q, toRemove.focus.e.id);
      }
    }

    /** `DetachOuter` when the earlier mate is the first occurrence of the
        tour and so alone in tree `k`: the `any` role of its vertex passes
        to the first occurrence after the later mate, if there is one, and
        the earlier mate is forgotten. */
    method DetachAlone(ghost F: Layout, k: nat, i2: nat, i3: nat, hasC: bool, ghost p: int, ghost q: int)
      requires Loose(State()) && Pieces(F, State(), k, p, q, i2, i3) && |Seq(trees[k])| == 1
      requires (hasC <==> q + 1 < |Seq(F.trees[k])|) && CutNeighbours(Seq(F.trees[k]), p, q)
      modifies this
      ensures Loose(State()) && OuterDone(F, State(), k, p, q)
      ensures counts == old(counts) && anyRoot == old(anyRoot)
    {
      ghost var G0 := State();
      if hasC {
        var first := Leftmost(Cursor(trees[i3], []));
        CursorAt(first);
        ChangeAny(first.focus.e.id, i3, 0);
        ghost var G1 := State();
        ShapeAt(G0.trees, G1.trees, k, 0);
        ShapeAt(G0.trees, G1.trees, i3, 0);
        AnyElsewhere(G1, k, 0);
        Discard(k, i3);
        OuterMoved(F, G0, G1, k, p, q, i2, i3);
      } else {
        OuterAlone(F, G0, k, p, q, i2, i3);
      }
    }

    /** `DetachOuter` when occurrences come before the earlier mate `x`:
        merge the pieces around the inner ones, then `cutoff(x, next)`,
        `next` being the occurrence after `x`, if any. */
    method DetachInside(ghost F: Layout, k: nat, i2: nat, i3: nat, hasC: bool, ghost p: int, ghost q: int, x: nat)
      requires Loose(State()) && Pieces(F, State(), k, p, q, i2, i3) && |Seq(trees[k])| >= 2
      requires (hasC <==> q + 1 < |Seq(F.trees[k])|) && CutNeighbours(Seq(F.trees[k]), p, q)
      requires x == Seq(F.trees[k])[p].id
      modifies this
      ensures Loose(State()) && OuterDone(F, State(), k, p, q)
      ensures counts == old(counts) && anyRoot == old(anyRoot)
    {
      ghost var G0 := State();
      if hasC {
        var ts := trees;
        var t := Merge(ts[k], ts[i3]);
        MergeLoose(G0, k, i3, t);
        OuterMerged(F, G0, k, p, q, i2, i3, t);
        trees := Drop(ts[k := t], i3);
      } else {
        OuterKept(F, G0, k, p, q, i2, i3);
      }
      CutOffEarlier(F, k, p, q, x);
    }

    /** The `cutoff(x, next)` of `DetachInside`, on the merged pieces. */
    method CutOffEarlier(ghost F: Layout, k: nat, ghost p: int, ghost q: int, x: nat)
      requires Loose(State()) && 0 <= k < |F.trees| && 0 < p < q < |Seq(F.trees[k])| && |trees| == |F.trees| + 1
      requires var s := Seq(F.trees[k]);
        && Seq(trees[k]) == s[..p + 1] + s[q + 1..] && Seq(trees[|F.trees|]) == s[p + 1..q + 1]
        && (forall j | 0 <= j < |F.trees| && j != k :: trees[j] == F.trees[j])
        && CutNeighbours(s, p, q) && x == s[p].id
      requires n == F.n && counts == F.counts && vertexOf == F.vertexOf && nextId == F.nextId
      requires mate == F.mate && links == F.links
      modifies this
      ensures Loose(State()) && OuterDone(F, State(), k, p, q)
      ensures counts == old(counts) && anyRoot == old(anyRoot)
    {
      ghost var G1 := State();
      OuterReady(F, G1.trees, k, p, q);
      Occupied(G1, k, p);
      IdsAgree(trees[k]);
      var c := Locate(trees[k], x);
      CursorAt(c);
      var next := Succ(c);
      if next.None? {
        CutOff(x, None, k, p, 0);
      } else {
        CursorAt(next.value);
        CutOff(x, Some(next.value.focus.e.id), k, p, p + 1);
      }
      OuterRemoved(F, G1.trees, State(), k, p, q);
    }

    /** `iterator(v)`: from the leftmost occurrence of the tree of `v`,
        each vertex connected to `v` that has active edges, once, in tour
        order. The constructor used is the corrected one; the one the
        source writes is ETFIterator.AsWritten (see WrittenOrderAgrees). */
    method Iterator(v: nat) returns (it: ETFIterator)
      requires Valid() && v < n
      ensures fresh(it) && it.Valid()
      ensures it.tour == Seq(trees[TreeOf(trees, any[v])])
      ensures it.Remaining == ActiveVertices(it.tour)
      ensures forall u: nat :: u in it.Remaining <==> u in Connected(State(), v) && counts[u] > 0
      ensures forall i, j :: 0 <= i < j < |it.Remaining| ==> it.Remaining[i] != it.Remaining[j]
    {
      var k := TreeOf(trees, any[v]);
      var first := Leftmost(Cursor(trees[k], []));
      it := new ETFIterator(first);
      IteratorYields(State(), v, k);
    }

    /** `iterator(v)` as written (ETFIterator.AsWritten): every vertex
        connected to `v` that has active edges, and nothing outside the
        tree of `v`. */
    method IteratorAsWritten(v: nat) returns (it: ETFIterator)
      requires Valid() && v < n
      ensures fresh(it) && it.Valid()
      ensures it.tour == Seq(trees[TreeOf(trees, any[v])])
      ensures it.Remaining == WrittenOrder(trees[TreeOf(trees, any[v])])
      ensures forall u: nat :: u in Connected(State(), v) && counts[u] > 0 ==> u in it.Remaining
      ensures forall u: nat :: u in it.Remaining ==> u in Connected(State(), v)
    {
      var k := TreeOf(trees, any[v]);
      var first := Leftmost(Cursor(trees[k], []));
      it := new ETFIterator.AsWritten(first);
      IteratorYields(State(), v, k);
      WrittenInTree(State(), v, k);
      WrittenCovers(trees[k]);
    }
  }
}

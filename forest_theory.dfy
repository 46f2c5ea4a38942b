/**
 * The state of one EulerTourForest.java object, seen as a whole: the splay
 * trees its entries form (one per tree of the spanning forest), the `any`
 * list, and the bookkeeping that explains them. The tree edges of the
 * forest are the pairs of mated occurrences; `links` picks one occurrence
 * of every pair (the `edge` field of its TreeEdge) as the edge's handle.
 *
 * The two theorems that give the structure its meaning are proved here:
 * two vertices are in the same splay tree exactly when the tree edges
 * connect them, and the tree edges have no cycle.
 */
module ForestTheory {

  import opened TourTree
  import opened EulerTour
  import opened Graph

  ghost function IdSet(t: Tree): set<nat>
  {
    IdsOf(Seq(t))
  }

  ghost function VertSet(t: Tree): set<nat>
  {
    Verts(Seq(t))
  }

  /** Every occurrence of the forest. */
  ghost function AllIds(ts: seq<Tree>): set<nat>
  {
    set k, id | 0 <= k < |ts| && id in IdSet(ts[k]) :: id
  }

  lemma AllIdsAt(ts: seq<Tree>, k: int, id: nat)
    requires 0 <= k < |ts| && id in IdSet(ts[k])
    ensures id in AllIds(ts)
  {
  }

  lemma Owner(ts: seq<Tree>, id: nat) returns (k: int)
    requires id in AllIds(ts)
    ensures 0 <= k < |ts| && id in IdSet(ts[k])
  {
    k :| 0 <= k < |ts| && id in IdSet(ts[k]);
  }

  lemma AllIdsInit(ts: seq<Tree>, id: nat)
    requires id in AllIds(ts) && ts != [] && id !in IdSet(ts[|ts| - 1])
    ensures id in AllIds(ts[..|ts| - 1])
  {
    var k := Owner(ts, id);
    assert ts[..|ts| - 1][k] == ts[k];
  }

  lemma AllIdsNonEmpty(ts: seq<Tree>, id: nat)
    requires id in AllIds(ts)
    ensures |ts| > 0
  {
    var k := Owner(ts, id);
  }

  /** `findRoot`: the tree an occurrence belongs to, as its index in the
      forest. */
  function TreeOf(ts: seq<Tree>, id: nat): (k: nat)
    requires id in AllIds(ts)
    ensures k < |ts| && id in IdSet(ts[k]) && id in Ids(ts[k])
  {
    AllIdsNonEmpty(ts, id);
    IdsAgree(ts[|ts| - 1]);
    if id in Ids(ts[|ts| - 1]) then |ts| - 1
    else
      AllIdsInit(ts, id);
      var k := TreeOf(ts[..|ts| - 1], id);
      assert ts[..|ts| - 1][k] == ts[k];
      k
  }

  /** Distinct trees share no occurrence. */
  ghost predicate IdsApart(ts: seq<Tree>)
  {
    forall j, k | 0 <= j < |ts| && 0 <= k < |ts| && j != k :: IdSet(ts[j]) !! IdSet(ts[k])
  }

  /** Distinct trees share no occurrence and no vertex. */
  ghost predicate Apart(ts: seq<Tree>)
  {
    && IdsApart(ts)
    && forall j, k | 0 <= j < |ts| && 0 <= k < |ts| && j != k :: VertSet(ts[j]) !! VertSet(ts[k])
  }

  lemma TreeOfUnique(ts: seq<Tree>, id: nat, k: int)
    requires IdsApart(ts) && 0 <= k < |ts| && id in IdSet(ts[k])
    ensures id in AllIds(ts) && TreeOf(ts, id) == k
  {
    AllIdsAt(ts, k, id);
  }

  /** Every tree is a valid splay tree holding a tour. */
  ghost predicate Tours(ts: seq<Tree>, mate: map<nat, nat>)
  {
    forall k | 0 <= k < |ts| :: TourTree.Valid(ts[k]) && Tour(Seq(ts[k]), mate)
  }

  /** What every occurrence satisfies: its vertex exists, its identity is
      recorded and older than the counter of identities, and its counter
      holds the vertex's count if it is the vertex's `any` occurrence and 0
      otherwise. */
  ghost predicate Counted(e: Entry, any: seq<nat>, counts: seq<int>, vertexOf: map<nat, nat>, nextId: nat)
  {
    && e.v < |any| && e.v < |counts|
    && e.id < nextId && e.id in vertexOf && vertexOf[e.id] == e.v
    && e.edges == (if e.id == any[e.v] then counts[e.v] else 0)
  }

  ghost predicate Tallied(ts: seq<Tree>, any: seq<nat>, counts: seq<int>, vertexOf: map<nat, nat>, nextId: nat)
  {
    forall k | 0 <= k < |ts| :: forall e | e in Seq(ts[k]) :: Counted(e, any, counts, vertexOf, nextId)
  }

  /** Every pair of mates has exactly one handle. */
  ghost predicate Linked(links: map<nat, nat>, mate: map<nat, nat>)
  {
    && (forall l | l in links :: l in mate && mate[l] == links[l] && links[l] !in links)
    && (forall a | a in mate :: a in links || mate[a] in links)
  }

  /** A forest: the tours, `any`, and the ghost bookkeeping (the count of
      each vertex, the vertex of every identity ever handed out, the pairs
      of mates and their handles). */
  datatype Layout = Layout(
    n: nat, trees: seq<Tree>, any: seq<nat>, counts: seq<int>,
    vertexOf: map<nat, nat>, nextId: nat, mate: map<nat, nat>, links: map<nat, nat>)

  /** What holds between the steps of every operation, also halfway
      through a cut: valid splay trees of distinct occurrences, `any`
      pointing at an occurrence of each vertex, every counter in its
      place. */
  ghost predicate Loose(F: Layout)
  {
    && |F.any| == F.n && |F.counts| == F.n
    && (forall k | 0 <= k < |F.trees| :: TourTree.Valid(F.trees[k]) && F.trees[k].Node? && Unique(Seq(F.trees[k])))
    && IdsApart(F.trees)
    && Tallied(F.trees, F.any, F.counts, F.vertexOf, F.nextId)
    && (forall v | 0 <= v < F.n :: F.any[v] in AllIds(F.trees) && F.any[v] in F.vertexOf && F.vertexOf[F.any[v]] == v)
    && (forall id | id in F.vertexOf :: id < F.nextId)
  }

  /** A forest between operations: also every tree a tour, no vertex in
      two trees, every pair of mates with its handle. */
  ghost predicate Sound(F: Layout)
  {
    && Loose(F)
    && Involution(F.mate)
    && Tours(F.trees, F.mate) && Apart(F.trees)
    && (forall id | id in F.mate :: id in AllIds(F.trees))
    && Linked(F.links, F.mate)
  }

  /** The tree edges, by handle: the vertices of the handle and of its mate. */
  ghost function Ends(F: Layout): map<nat, (nat, nat)>
  {
    map l | l in F.links && l in F.vertexOf && F.links[l] in F.vertexOf :: (F.vertexOf[l], F.vertexOf[F.links[l]])
  }

  ghost function EdgeSet(m: map<nat, (nat, nat)>): set<(nat, nat)>
  {
    set l | l in m :: m[l]
  }

  ghost function Edges(F: Layout): set<(nat, nat)>
  {
    EdgeSet(Ends(F))
  }

  // ---------------------------------------------------------------------
  // Occurrences and their vertices

  /** An occurrence of a tree is an entry of its tour, of the recorded
      vertex, which is then a vertex of the tree. */
  lemma Occurrence(F: Layout, k: int, id: nat) returns (i: int)
    requires Sound(F) && 0 <= k < |F.trees| && id in IdSet(F.trees[k])
    ensures var s := Seq(F.trees[k]); 0 <= i < |s| && s[i].id == id
    ensures id in F.vertexOf && F.vertexOf[id] == Seq(F.trees[k])[i].v
    ensures F.vertexOf[id] in VertSet(F.trees[k])
  {
    var s := Seq(F.trees[k]);
    i := IndexOf(s, id);
    assert s[i] in s;
    VertsAt(s, i);
  }

  /** Each vertex's `any` occurrence is in the tree holding the vertex. */
  lemma AnyHome(F: Layout, v: nat, k: int)
    requires Sound(F) && v < F.n && 0 <= k < |F.trees| && v in VertSet(F.trees[k])
    ensures TreeOf(F.trees, F.any[v]) == k
  {
    var j := TreeOf(F.trees, F.any[v]);
    var i := Occurrence(F, j, F.any[v]);
  }

  /** Both occurrences of a tree edge, and so both its ends, are in one tree. */
  lemma LinkHome(F: Layout, l: nat) returns (k: int)
    requires Sound(F) && l in F.links
    ensures 0 <= k < |F.trees| && l in IdSet(F.trees[k]) && F.links[l] in IdSet(F.trees[k])
    ensures l in Ends(F) && Ends(F)[l].0 in VertSet(F.trees[k]) && Ends(F)[l].1 in VertSet(F.trees[k])
  {
    k := Owner(F.trees, l);
    var s := Seq(F.trees[k]);
    var i := Occurrence(F, k, l);
    assert |s| != 1;
    assert F.mate[s[i].id] in IdsOf(s);
    var j := Occurrence(F, k, F.links[l]);
  }

  /** Mated occurrences of a tour are the ends of a tree edge. */
  lemma MatesAdjacent(F: Layout, k: int, a: int, b: int)
    requires Sound(F) && 0 <= k < |F.trees|
    requires var s := Seq(F.trees[k]); 0 <= a < |s| && 0 <= b < |s| && s[a].id in F.mate && F.mate[s[a].id] == s[b].id
    ensures var s := Seq(F.trees[k]); Adjacent(Edges(F), s[a].v, s[b].v)
  {
    var s := Seq(F.trees[k]);
    Recorded(F, k);
    assert s[a] in s && s[b] in s;
    var x, y := s[a].id, s[b].id;
    if x in F.links {
      assert x in Ends(F) && Ends(F)[x] == (s[a].v, s[b].v);
    } else {
      assert y in F.links && F.links[y] == x;
      assert y in Ends(F) && Ends(F)[y] == (s[b].v, s[a].v);
    }
  }

  /** No tree edge leaves a tree. */
  lemma EdgesStayHome(F: Layout, k: int)
    requires Sound(F) && 0 <= k < |F.trees|
    ensures forall e | e in Edges(F) :: (e.0 in VertSet(F.trees[k]) <==> e.1 in VertSet(F.trees[k]))
  {
    forall e | e in Edges(F)
      ensures e.0 in VertSet(F.trees[k]) <==> e.1 in VertSet(F.trees[k])
    {
      var l :| l in Ends(F) && Ends(F)[l] == e;
      var h := LinkHome(F, l);
      if h != k {
        assert VertSet(F.trees[h]) !! VertSet(F.trees[k]);
      }
    }
  }

  /** The tree of `findRoot(any[v])` is the set of vertices the tree edges
      connect `v` to. */
  lemma ConnectedIffReach(F: Layout, v: nat, u: nat)
    requires Sound(F) && v < F.n && u < F.n
    ensures TreeOf(F.trees, F.any[v]) == TreeOf(F.trees, F.any[u]) <==> Reach(Edges(F), v, u)
  {
    var kv := TreeOf(F.trees, F.any[v]);
    var ku := TreeOf(F.trees, F.any[u]);
    var iv := Occurrence(F, kv, F.any[v]);
    var iu := Occurrence(F, ku, F.any[u]);
    var s := Seq(F.trees[kv]);
    if kv == ku {
      forall a, b | 0 <= a < |s| && 0 <= b < |s| && s[a].id in F.mate && F.mate[s[a].id] == s[b].id
        ensures Adjacent(Edges(F), s[a].v, s[b].v)
      {
        MatesAdjacent(F, kv, a, b);
      }
      TourConnected(s, F.mate, Edges(F), v, u);
    }
    if Reach(Edges(F), v, u) {
      EdgesStayHome(F, kv);
      ReachClosed(Edges(F), VertSet(F.trees[kv]), v, u);
    }
  }

  /** The vertices recorded for the occurrences of a tree are theirs. */
  lemma Recorded(F: Layout, k: int)
    requires Sound(F) && 0 <= k < |F.trees|
    ensures forall e | e in Seq(F.trees[k]) :: e.id in F.vertexOf && F.vertexOf[e.id] == e.v
  {
  }

  /** The ends of a tree edge other than the one cut out of tree `k` are on
      the same side of the cut. */
  lemma EdgeSides(F: Layout, k: int, l: nat, p: int, q: int, h: nat)
    requires Sound(F) && 0 <= k < |F.trees| && l in F.links && h in F.links && h != l
    requires var s := Seq(F.trees[k]); 0 <= p < q < |s|
    requires var s := Seq(F.trees[k]); (s[p].id == l && s[q].id == F.links[l]) || (s[p].id == F.links[l] && s[q].id == l)
    requires var s := Seq(F.trees[k]); s[p].id in F.mate && F.mate[s[p].id] == s[q].id
    ensures h in Ends(F)
    ensures var s := Seq(F.trees[k]); var O, I := CutOuter(s, p, q), CutInner(s, p, q);
      var a, b := Ends(F)[h].0, Ends(F)[h].1;
      (a in Verts(O) <==> b in Verts(O)) && (a in Verts(I) <==> b in Verts(I))
  {
    var s := Seq(F.trees[k]);
    var O, I := CutOuter(s, p, q), CutInner(s, p, q);
    var kh := LinkHome(F, h);
    Cut(s, F.mate, p, q);
    if kh == k {
      var rh := F.links[h];
      assert h != F.links[l];
      CutKeepsPairs(s, F.mate, p, q, h);
      Recorded(F, k);
      CutParts(s, p, q);
      if h in IdsOf(O) && rh in IdsOf(O) {
        RecordedVertex(O, F.vertexOf, h);
        RecordedVertex(O, F.vertexOf, rh);
      } else {
        RecordedVertex(I, F.vertexOf, h);
        RecordedVertex(I, F.vertexOf, rh);
      }
    }
  }

  /** Edges whose handles all keep to the sides of two sets keep to them. */
  lemma EdgeSetSides(m: map<nat, (nat, nat)>, X: set<nat>, Y: set<nat>)
    requires forall h | h in m :: (m[h].0 in X <==> m[h].1 in X) && (m[h].0 in Y <==> m[h].1 in Y)
    ensures forall e | e in EdgeSet(m) :: (e.0 in X <==> e.1 in X) && (e.0 in Y <==> e.1 in Y)
  {
  }

  /** Cutting a tree edge out of its tour leaves every other tree edge with
      both ends on the same side. */
  lemma CutClosed(F: Layout, k: int, l: nat, p: int, q: int)
    requires Sound(F) && 0 <= k < |F.trees| && l in F.links
    requires var s := Seq(F.trees[k]); 0 <= p < q < |s|
    requires var s := Seq(F.trees[k]); (s[p].id == l && s[q].id == F.links[l]) || (s[p].id == F.links[l] && s[q].id == l)
    requires var s := Seq(F.trees[k]); s[p].id in F.mate && F.mate[s[p].id] == s[q].id
    ensures var s := Seq(F.trees[k]); var O, I := CutOuter(s, p, q), CutInner(s, p, q);
      forall e | e in EdgeSet(Ends(F) - {l}) ::
        (e.0 in Verts(O) <==> e.1 in Verts(O)) && (e.0 in Verts(I) <==> e.1 in Verts(I))
  {
    var s := Seq(F.trees[k]);
    var O, I := CutOuter(s, p, q), CutInner(s, p, q);
    var m := Ends(F) - {l};
    forall h | h in m
      ensures (m[h].0 in Verts(O) <==> m[h].1 in Verts(O)) && (m[h].0 in Verts(I) <==> m[h].1 in Verts(I))
    {
      EdgeSides(F, k, l, p, q, h);
    }
    EdgeSetSides(m, Verts(O), Verts(I));
  }

  /** Cutting the tree edge `l`, whose occurrences sit at `p` and `q` in
      tree `k`, leaves its two ends unconnected. */
  lemma CutApart(F: Layout, k: int, l: nat, p: int, q: int)
    requires Sound(F) && 0 <= k < |F.trees| && l in F.links
    requires var s := Seq(F.trees[k]); 0 <= p < q < |s|
    requires var s := Seq(F.trees[k]); (s[p].id == l && s[q].id == F.links[l]) || (s[p].id == F.links[l] && s[q].id == l)
    requires var s := Seq(F.trees[k]); s[p].id in F.mate && F.mate[s[p].id] == s[q].id
    ensures var s, E := Seq(F.trees[k]), EdgeSet(Ends(F) - {l});
      !Reach(E, s[p].v, s[q].v) && !Reach(E, s[q].v, s[p].v)
  {
    var s := Seq(F.trees[k]);
    Cut(s, F.mate, p, q);
    CutClosed(F, k, l, p, q);
    Unreachable(EdgeSet(Ends(F) - {l}), Verts(CutOuter(s, p, q)), Verts(CutInner(s, p, q)), s[p].v, s[q].v);
  }

  /** The tree edges form a forest: without one of them, its two ends are
      no longer connected. */
  lemma Acyclic(F: Layout, l: nat)
    requires Sound(F) && l in F.links
    ensures l in Ends(F) && !Reach(EdgeSet(Ends(F) - {l}), Ends(F)[l].0, Ends(F)[l].1)
  {
    var k := LinkHome(F, l);
    var s := Seq(F.trees[k]);
    var r := F.links[l];
    var i := Occurrence(F, k, l);
    var j := Occurrence(F, k, r);
    if i < j {
      assert F.mate[s[i].id] == s[j].id;
      CutApart(F, k, l, i, j);
    } else {
      assert F.mate[s[j].id] == s[i].id;
      CutApart(F, k, l, j, i);
    }
    assert Ends(F)[l] == (s[i].v, s[j].v);
  }

  // ---------------------------------------------------------------------
  // The whole forest

  /** The vertices of the graph. */
  ghost function Below(n: nat): set<nat>
  {
    if n == 0 then {} else Below(n - 1) + {n - 1}
  }

  lemma {:induction false} BelowMeaning(n: nat)
    ensures forall v: int :: v in Below(n) <==> 0 <= v < n
    ensures |Below(n)| == n
  {
    if n > 0 {
      BelowMeaning(n - 1);
      assert Below(n - 1) !! {n - 1};
      DisjointCard(Below(n - 1), {n - 1});
    }
  }

  /** A subset as large as the set is the set. */
  lemma SubsetCard(x: set<nat>, y: set<nat>)
    requires x <= y && |x| >= |y|
    ensures x == y
  {
    assert |y - x| == |y| - |x * y|;
    assert x * y == x;
  }

  /** Every vertex is connected to every other by the tree edges. */
  ghost predicate AllConnected(F: Layout)
  {
    forall v, u | 0 <= v < F.n && 0 <= u < F.n :: Reach(Edges(F), v, u)
  }

  /** The vertices of a tree are vertices of the graph. */
  lemma TreeVerts(F: Layout, k: int)
    requires Sound(F) && 0 <= k < |F.trees|
    ensures VertSet(F.trees[k]) <= Below(F.n)
    ensures forall v | v in VertSet(F.trees[k]) :: v < F.n
  {
    BelowMeaning(F.n);
    forall v | v in VertSet(F.trees[k])
      ensures v < F.n
    {
      var s := Seq(F.trees[k]);
      var i := VertsWitness(s, v);
      assert s[i] in s;
    }
  }

  /** The vertices the tree edges connect `v` to. */
  ghost function Connected(F: Layout, v: nat): set<nat>
  {
    set u | 0 <= u < F.n && Reach(Edges(F), v, u)
  }

  /** The vertices connected to `v` are those of its tree. */
  lemma Component(F: Layout, v: nat, k: int)
    requires Sound(F) && v < F.n && k == TreeOf(F.trees, F.any[v])
    ensures VertSet(F.trees[k]) == Connected(F, v)
  {
    TreeVerts(F, k);
    var i := Occurrence(F, k, F.any[v]);
    forall u | 0 <= u < F.n
      ensures u in VertSet(F.trees[k]) <==> Reach(Edges(F), v, u)
    {
      ConnectedIffReach(F, v, u);
      var ku := TreeOf(F.trees, F.any[u]);
      var j := Occurrence(F, ku, F.any[u]);
      if u in VertSet(F.trees[k]) {
        AnyHome(F, u, k);
      }
    }
  }

  /** With two trees or more, some vertices are not connected. */
  lemma NotAllConnected(F: Layout)
    requires Sound(F) && |F.trees| >= 2
    ensures !AllConnected(F)
  {
    var s0, s1 := Seq(F.trees[0]), Seq(F.trees[1]);
    var v0, v1 := s0[0].v, s1[0].v;
    VertsAt(s0, 0);
    VertsAt(s1, 0);
    TreeVerts(F, 0);
    TreeVerts(F, 1);
    AnyHome(F, v0, 0);
    AnyHome(F, v1, 1);
    ConnectedIffReach(F, v0, v1);
  }

  /** A tree holding every vertex has a tour of 2n - 2 occurrences. */
  lemma WholeTreeLength(F: Layout, k: int)
    requires Sound(F) && 0 <= k < |F.trees| && F.n >= 2 && AllConnected(F)
    ensures |Seq(F.trees[k])| == 2 * (F.n - 1)
  {
    var s := Seq(F.trees[k]);
    var V := VertSet(F.trees[k]);
    TourCount(s, F.mate);
    TreeVerts(F, k);
    BelowMeaning(F.n);
    var v := s[0].v;
    VertsAt(s, 0);
    AnyHome(F, v, k);
    Component(F, v, k);
    assert V == Below(F.n);
  }

  /** A tree whose tour has 2n - 2 occurrences holds every vertex. */
  lemma WholeTreeConnected(F: Layout, k: int)
    requires Sound(F) && 0 <= k < |F.trees| && F.n >= 2 && |Seq(F.trees[k])| == 2 * (F.n - 1)
    ensures AllConnected(F)
  {
    var s := Seq(F.trees[k]);
    var V := VertSet(F.trees[k]);
    TourCount(s, F.mate);
    TreeVerts(F, k);
    BelowMeaning(F.n);
    SubsetCard(V, Below(F.n));
    var v := s[0].v;
    VertsAt(s, 0);
    AnyHome(F, v, k);
    Component(F, v, k);
    forall x, y | 0 <= x < F.n && 0 <= y < F.n
      ensures Reach(Edges(F), x, y)
    {
      assert x in V && y in V;
      ReachSym(Edges(F), v, x);
      ReachTrans(Edges(F), x, v, y);
    }
  }

  /** On a graph of two vertices or more, a tree holds all of them exactly
      when its tour has the length of a tour of n vertices, 2n - 2. */
  lemma WholeTree(F: Layout, k: int)
    requires Sound(F) && 0 <= k < |F.trees| && F.n >= 2
    ensures AllConnected(F) <==> |Seq(F.trees[k])| == 2 * (F.n - 1)
  {
    if AllConnected(F) {
      WholeTreeLength(F, k);
    }
    if |Seq(F.trees[k])| == 2 * (F.n - 1) {
      WholeTreeConnected(F, k);
    }
  }

  /** `size(v)`: the tour of a tree of c vertices has one occurrence if
      c = 1 and 2c - 2 otherwise. */
  lemma ComponentSize(F: Layout, v: nat, k: int)
    requires Sound(F) && v < F.n && k == TreeOf(F.trees, F.any[v])
    ensures v in Connected(F, v)
    ensures var c := |Connected(F, v)|; |Seq(F.trees[k])| == if c == 1 then 1 else 2 * c - 2
  {
    Component(F, v, k);
    ReachRefl(Edges(F), v);
    TourCount(Seq(F.trees[k]), F.mate);
  }
}

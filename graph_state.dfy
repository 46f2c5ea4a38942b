/**
 * The values a DynamicGraph holds, and what its invariant gives about
 * them: the forests of its levels (`V`), its adjacency lists (`A`), its
 * records (`E`), the next record number (`next`) and the next handle (`nh`). Connectivity calls
 * these lemmas on the fields of the graph.
 */
module GraphState {

  import opened Wrappers
  import opened Graph
  import opened ForestTheory
  import opened Levels
  import opened Handles
  import opened AbstractForest

  /** One forest per level, every handle below `nh`. */
  ghost predicate Woods(V: seq<Level>, size: nat, nh: nat)
  {
    |V| == size && forall j {:trigger Forested(V[j], nh)} | 0 <= j < size :: Forested(V[j], nh)
  }

  /** The invariant of a graph of `n` vertices and `size` levels. */
  ghost predicate State(n: nat, size: nat, V: seq<Level>, A: seq<seq<seq<Slot>>>, E: map<nat, Edge>,
                        next: nat, nh: nat)
  {
    n >= 1 && size == LevelCount(n) && Woods(V, size, nh) && Inv(n, V, A, E, next)
  }

  /** The shapes the invariant fixes. */
  lemma Shapes(n: nat, size: nat, V: seq<Level>, A: seq<seq<seq<Slot>>>, E: map<nat, Edge>,
               next: nat, nh: nat)
    requires State(n, size, V, A, E, next, nh)
    ensures |V| == size >= 1 && |A| == size && (forall j | 0 <= j < size :: |A[j]| == n)
    ensures Records(n, size, E) && TopEdges(V) == EdgeSet(V[size - 1].ends)
  {
  }

  /** A forest of a level connects vertices of the graph only. */
  lemma Inside(n: nat, V: seq<Level>, A: seq<seq<seq<Slot>>>, E: map<nat, Edge>, j: nat, v: nat, x: nat)
    requires Core(n, V, A, E) && j < |V| && v < n && Reach(EdgeSet(V[j].ends), v, x)
    ensures x < n
  {
    var F := V[j];
    var S := Span(F.ends) + {v};
    LevelAt(V, E, j);
    forall e | e in EdgeSet(F.ends)
      ensures e.0 in S && e.1 in S
    {
      var h :| h in F.ends && F.ends[h] == e;
    }
    ReachClosed(EdgeSet(F.ends), S, v, x);
    if x != v {
      var h :| h in F.ends && (F.ends[h].0 == x || F.ends[h].1 == x);
      var id := F.owners[h];
      assert Held(F, F.handles[id], E[id]);
      assert RecordOk(n, |V|, E[id]);
    }
  }

  /** The ends of the tree edges `m`. */
  ghost function Span(m: map<nat, (nat, nat)>): set<nat>
  {
    (set h | h in m :: m[h].0) + (set h | h in m :: m[h].1)
  }

  /** A record is a tree edge exactly when it holds handles, one
      per level from its own to the top. */
  lemma TreeIffHeld(n: nat, V: seq<Level>, A: seq<seq<seq<Slot>>>, E: map<nat, Edge>,
                    next: nat, id: nat)
    requires Inv(n, V, A, E, next) && id in E
    ensures IsTree(V, id) <==> E[id].treeEdges != []
    ensures IsTree(V, id) ==> |E[id].treeEdges| == |V| - E[id].lvl
  {
    assert Holding(V, id, E[id]);
    assert RecordOk(n, |V|, E[id]);
  }

  /** A handle of level `j` is a bridge of that forest between the ends of
      its record. */
  lemma BridgeAt(V: seq<Level>, E: map<nat, Edge>, nh: nat, j: nat, id: nat)
    requires Levels.Levels(V, E) && j < |V| && Forested(V[j], nh) && id in V[j].handles
    ensures var h := V[j].handles[id].0; id in E && h in V[j].ends && Bridge(V[j], h) && V[j].ends[h] == (E[id].v, E[id].u)
  {
    LevelAt(V, E, j);
    assert Held(V[j], V[j].handles[id], E[id]);
  }

  /** `downgrade` of a tree edge may link it one level down. */
  lemma LinkReady(n: nat, size: nat, V: seq<Level>, A: seq<seq<seq<Slot>>>, E: map<nat, Edge>,
                  next: nat, nh: nat, id: nat)
    requires State(n, size, V, A, E, next, nh) && id in E && RecordOk(n, size, E[id]) && E[id].lvl >= 1 && IsTree(V, id)
    ensures !Reach(EdgeSet(V[E[id].lvl - 1].ends), E[id].v, E[id].u)
  {
    var j := E[id].lvl;
    assert RecordOk(n, size, E[id]);
    assert Forested(V[j], nh);
    CompleteAt(V, E, j, id);
    BridgeAt(V, E, nh, j, id);
    Lower(V, E, id);
  }

  /** Record `r` of level `i` is a non-tree edge between the two sides
      that `v` and `u` are on in the top forest. */
  ghost predicate Replacement(V: seq<Level>, E: map<nat, Edge>, r: nat, i: nat, v: nat, u: nat)
  {
    r in E && E[r].lvl == i && !IsTree(V, r) && Crosses(TopEdges(V), E[r].v, E[r].u, v, u)
  }

  /** An edge crossing between the sides of two vertices the forest does
      not connect has ends the forest does not connect. */
  lemma CrossingApart(S: set<(nat, nat)>, a: nat, b: nat, v: nat, u: nat)
    requires Crosses(S, a, b, v, u) && !Reach(S, v, u)
    ensures !Reach(S, a, b)
  {
    if Reach(S, a, b) {
      if Reach(S, v, a) && Reach(S, b, u) {
        ReachTrans(S, v, a, b);
        ReachTrans(S, v, b, u);
      } else {
        ReachSym(S, a, b);
        ReachTrans(S, v, b, a);
        ReachTrans(S, v, a, u);
      }
    }
  }

  /** A record no forest holds at or above its level, and whose ends the
      top forest does not connect, is held at no level and its ends are
      connected at none. */
  lemma Apart(n: nat, V: seq<Level>, A: seq<seq<seq<Slot>>>, E: map<nat, Edge>, r: nat, j: nat)
    requires Good(n, V, A, E) && r in E && !IsTree(V, r) && j < |V|
    requires !Reach(TopEdges(V), E[r].v, E[r].u)
    ensures r !in V[j].handles && !Reach(EdgeSet(V[j].ends), E[r].v, E[r].u)
  {
    LevelAt(V, E, j);
    if E[r].lvl <= j {
      CompleteAt(V, E, j, r);
    }
    if Reach(EdgeSet(V[j].ends), E[r].v, E[r].u) {
      NestedReach(n, V, A, E, j, |V| - 1, E[r].v, E[r].u);
    }
  }

  // ---------------------------------------------------------------------
  // Small facts about reachability and records

  lemma ReachBoth(S: set<(nat, nat)>, w: nat, v: nat, u: nat)
    requires Reach(S, w, v) && Reach(S, w, u)
    ensures Reach(S, v, u)
  {
    ReachSym(S, w, v);
    ReachTrans(S, v, w, u);
  }

  lemma ReachSymNot(S: set<(nat, nat)>, v: nat, u: nat)
    requires !Reach(S, v, u)
    ensures !Reach(S, u, v)
  {
    if Reach(S, u, v) {
      ReachSym(S, u, v);
    }
  }

  /** Crossing between `x` and `y` is crossing between them in either
      order. */
  lemma CrossesSwap(S: set<(nat, nat)>, a: nat, b: nat, x: nat, y: nat, v: nat, u: nat)
    requires Crosses(S, a, b, x, y) && ((x == v && y == u) || (x == u && y == v))
    ensures Crosses(S, a, b, v, u)
  {
    if x != v {
      CrossesSym(S, a, b, x, y);
    }
  }

  /** The bridge (v, u) of `S0` exchanged for an edge (a, b) that crosses
      between its sides: the same vertices are connected. */
  lemma ExchangeAll(S0: set<(nat, nat)>, S1: set<(nat, nat)>, v: nat, u: nat, a: nat, b: nat)
    requires (v, u) in S0 && S1 == S0 - {(v, u)} && Crosses(S1, a, b, v, u)
    ensures forall x, y :: Reach(S1 + {(a, b)}, x, y) <==> Reach(S0, x, y)
  {
    assert S1 + {(v, u)} == S0;
    forall x, y
      ensures Reach(S1 + {(a, b)}, x, y) <==> Reach(S0, x, y)
    {
      Exchange(S1, v, u, a, b, x, y);
    }
  }

  lemma KeptRefl(E: map<nat, Edge>)
    ensures Kept(E, E)
  {
  }

  lemma KeptTrans(E0: map<nat, Edge>, E1: map<nat, Edge>, E2: map<nat, Edge>)
    requires Kept(E0, E1) && Kept(E1, E2)
    ensures Kept(E0, E2)
  {
  }

  /** A record given a new list of handles keeps its ends and level. */
  lemma KeptTreeEdges(E0: map<nat, Edge>, E1: map<nat, Edge>, E2: map<nat, Edge>, r: nat)
    requires Kept(E0, E1) && r in E1 && r in E2 && E2 == E1[r := E1[r].(treeEdges := E2[r].treeEdges)]
    ensures Kept(E0, E2)
  {
  }

  // ---------------------------------------------------------------------
  // One forest

  /** `link` of two vertices level `j` does not connect keeps the forests,
      under the fresh handle `nh`. */
  lemma WoodsLink(V: seq<Level>, size: nat, nh: nat, j: nat, id: nat, p: (nat, nat))
    requires Woods(V, size, nh) && j < size && !Reach(EdgeSet(V[j].ends), p.0, p.1)
    ensures Woods(V[j := Added(V[j], id, (nh, nh + 1), p)], size, nh + 2)
    ensures nh !in V[j].ends && EdgeSet(Added(V[j], id, (nh, nh + 1), p).ends) == EdgeSet(V[j].ends) + {p}
  {
    LinkForested(V[j], id, nh, p);
    var V' := V[j := Added(V[j], id, (nh, nh + 1), p)];
    forall k | 0 <= k < size
      ensures Forested(V'[k], nh + 2)
    {
      if k != j {
        assert Forested(V[k], nh);
      }
    }
  }

  /** `cut` of a tree edge of level `j` keeps the forests. */
  lemma WoodsCut(V: seq<Level>, size: nat, nh: nat, j: nat, id: nat)
    requires Woods(V, size, nh) && j < size && id in V[j].handles && V[j].handles[id].0 in V[j].ends
    ensures Woods(V[j := Removed(V[j], id)], size, nh)
    ensures EdgeSet(Removed(V[j], id).ends) == EdgeSet(V[j].ends) - {V[j].ends[V[j].handles[id].0]}
  {
    CutForested(V[j], id, nh);
    var V' := V[j := Removed(V[j], id)];
    forall k | 0 <= k < size
      ensures Forested(V'[k], nh)
    {
      if k != j {
        assert Forested(V[k], nh);
      }
    }
  }

  // ---------------------------------------------------------------------
  // remove: cutting

  /** After `i` steps of the first loop of `remove`, the handles of `id`
      are cut from the top `i` levels. */
  ghost predicate Cutting(V0: seq<Level>, V: seq<Level>, id: nat, i: nat)
  {
    && |V| == |V0| && i <= |V|
    && (forall j | 0 <= j < |V| - i :: V[j] == V0[j])
    && (forall j | |V| - i <= j < |V| :: id in V0[j].handles && V[j] == Removed(V0[j], id))
  }

  /** Before the first loop of `remove`: the handles of `id`, one
      per level from its own to the top. */
  lemma CutReady(n: nat, size: nat, V: seq<Level>, A: seq<seq<seq<Slot>>>, E: map<nat, Edge>,
                 next: nat, nh: nat, id: nat)
    requires State(n, size, V, A, E, next, nh) && id in E && IsTree(V, id)
    ensures |E[id].treeEdges| == size - E[id].lvl && HeldAll(V, id, E[id].treeEdges)
    ensures Cutting(V, V, id, 0)
  {
    TreeIffHeld(n, V, A, E, next, id);
    assert Holding(V, id, E[id]);
  }

  /** Step `i` of the first loop of `remove`: place `i` of the list holds
      the handle of `id` at level `|V| - 1 - i`, not yet cut. */
  lemma CutNext(n: nat, V0: seq<Level>, V: seq<Level>, A: seq<seq<seq<Slot>>>, E: map<nat, Edge>,
                id: nat, tes: seq<(nat, nat)>, i: nat)
    requires Core(n, V, A, E) && Cutting(V0, V, id, i) && HeldAll(V0, id, tes) && i < |tes| <= |V|
    ensures var j := |V| - 1 - i;
      && id in V[j].handles && tes[i] == V[j].handles[id] && V[j].handles[id].0 in V[j].ends
  {
    var j := |V| - 1 - i;
    assert HeldAt(V0, id, i, tes[i]);
    LevelAt(V, E, j);
    assert Held(V[j], V[j].handles[id], E[id]);
  }

  lemma CuttingNext(V0: seq<Level>, Vp: seq<Level>, V: seq<Level>, id: nat, i: nat)
    requires Cutting(V0, Vp, id, i) && i < |Vp| && id in Vp[|Vp| - 1 - i].handles
    requires V == Vp[|Vp| - 1 - i := Removed(Vp[|Vp| - 1 - i], id)]
    ensures Cutting(V0, V, id, i + 1)
  {
  }

  lemma TopIs(V: seq<Level>)
    requires |V| >= 1
    ensures TopEdges(V) == EdgeSet(V[|V| - 1].ends)
  {
  }

  /** After the first loop of `remove`: `id` holds no handle. */
  lemma CutHandles(V0: seq<Level>, V: seq<Level>, E: map<nat, Edge>, id: nat)
    requires Levels.Levels(V0, E) && id in E && E[id].lvl < |V0|
    requires Cutting(V0, V, id, |V0| - E[id].lvl)
    ensures forall j | 0 <= j < |V| :: V[j].handles == V0[j].handles - {id}
  {
    forall j | 0 <= j < |V|
      ensures V[j].handles == V0[j].handles - {id}
    {
      if j < E[id].lvl {
        assert V[j] == V0[j];
        LevelAt(V0, E, j);
        assert id !in V0[j].handles;
      } else {
        assert V[j] == Removed(V0[j], id);
      }
    }
  }

  /** After the first loop of `remove`: the top forest has lost exactly
      the tree edge of `id`, a bridge, whose ends it no longer
      connects. */
  lemma CutTop(V0: seq<Level>, V: seq<Level>, E: map<nat, Edge>, id: nat, nh: nat)
    requires Levels.Levels(V0, E) && Woods(V0, |V0|, nh) && id in E && E[id].lvl < |V0|
    requires Cutting(V0, V, id, |V0| - E[id].lvl)
    ensures (E[id].v, E[id].u) in TopEdges(V0)
    ensures TopEdges(V) == TopEdges(V0) - {(E[id].v, E[id].u)} && !Reach(TopEdges(V), E[id].v, E[id].u)
  {
    var top := |V0| - 1;
    LevelCut(V0, V, E, id, nh, top);
    TopIs(V);
    TopIs(V0);
    assert |V| - 1 == top;
  }

  /** The forest of level `j`, from the level of `id` up, is that of `V0`
      without the bridge of `id`. */
  lemma LevelCut(V0: seq<Level>, V: seq<Level>, E: map<nat, Edge>, id: nat, nh: nat, j: nat)
    requires Levels.Levels(V0, E) && Woods(V0, |V0|, nh) && id in E && E[id].lvl <= j < |V0|
    requires Cutting(V0, V, id, |V0| - E[id].lvl)
    ensures var F0, F, p := V0[j], V[j], (E[id].v, E[id].u);
      p in EdgeSet(F0.ends) && EdgeSet(F.ends) == EdgeSet(F0.ends) - {p} && !Reach(EdgeSet(F.ends), p.0, p.1)
  {
    assert Forested(V0[j], nh);
    BridgeAt(V0, E, nh, j, id);
    assert V[j] == Removed(V0[j], id);
    CutBridge(V0[j], V[j], V0[j].handles[id].0, (E[id].v, E[id].u));
  }

  /** A forest without its bridge `h` between the ends `p`. */
  lemma CutBridge(F0: Level, F: Level, h: nat, p: (nat, nat))
    requires Bridge(F0, h) && F0.ends[h] == p && F.ends == F0.ends - {h}
    ensures p in EdgeSet(F0.ends) && EdgeSet(F.ends) == EdgeSet(F0.ends) - {p} && !Reach(EdgeSet(F.ends), p.0, p.1)
  {
    EdgeSetCut(F0.ends, h);
  }

  /** A non-tree edge holds no handle at any level. */
  lemma Unheld(n: nat, V: seq<Level>, A: seq<seq<seq<Slot>>>, E: map<nat, Edge>, next: nat, id: nat)
    requires Inv(n, V, A, E, next) && id in E && E[id].treeEdges == []
    ensures forall j | 0 <= j < |V| :: V[j].handles == V[j].handles - {id}
  {
    TreeIffHeld(n, V, A, E, next, id);
    forall j | 0 <= j < |V|
      ensures id !in V[j].handles
    {
      LevelAt(V, E, j);
      if E[id].lvl <= j {
        CompleteAt(V, E, j, id);
      }
    }
  }

  // ---------------------------------------------------------------------
  // remove: the search

  /** The list of `w` at level `i`, before it is scanned. */
  lemma ListReady(n: nat, size: nat, V: seq<Level>, A: seq<seq<seq<Slot>>>, E: map<nat, Edge>,
                  next: nat, nh: nat, i: nat, w: nat)
    requires State(n, size, V, A, E, next, nh) && i < size && w < n
    ensures DistinctEdges(A[i][w]) && forall k | 0 <= k < |A[i][w]| :: SlotOk(E, i, w, A[i][w][k])
    ensures forall id | id in E && E[id].lvl == i && (E[id].v == w || E[id].u == w) ::
      Slot(if E[id].v == w then E[id].u else E[id].v, id) in A[i][w]
  {
    forall id | id in E && E[id].lvl == i && (E[id].v == w || E[id].u == w)
      ensures Slot(if E[id].v == w then E[id].u else E[id].v, id) in A[i][w]
    {
      assert Subscribed(A, id, E[id]);
    }
  }

  /** A node of the list of `w` at level `i`: a live record of level `i`,
      a tree edge exactly when it holds handles, whose far end is a
      vertex. */
  lemma ScanReady(n: nat, size: nat, V: seq<Level>, A: seq<seq<seq<Slot>>>, E: map<nat, Edge>,
                  next: nat, nh: nat, i: nat, w: nat, list: seq<Slot>, k: nat)
    requires State(n, size, V, A, E, next, nh) && k < |list| && SlotOk(E, i, w, list[k])
    ensures list[k].edge in E && E[list[k].edge].lvl == i && list[k].vertex < n
    ensures IsTree(V, list[k].edge) <==> E[list[k].edge].treeEdges != []
  {
    TreeIffHeld(n, V, A, E, next, list[k].edge);
    assert RecordOk(n, size, E[list[k].edge]);
  }

  /** A non-tree edge of level `i` from a vertex on the side of `v` to one
      connected to `u` is a replacement. */
  lemma FoundReplacement(V: seq<Level>, E: map<nat, Edge>, s: Slot, i: nat, w: nat, v: nat, u: nat)
    requires SlotOk(E, i, w, s) && !IsTree(V, s.edge)
    requires Reach(TopEdges(V), v, w) && Reach(TopEdges(V), s.vertex, u)
    ensures Replacement(V, E, s.edge, i, v, u)
  {
  }

  /** A record of level `i >= 1` pushed one level down: the records keep
      their ends, the forests from level `i` up stay, a replacement found
      before stays one, and the rest of the list is still of level `i`. */
  lemma ScanDown(V0: seq<Level>, Vp: seq<Level>, V: seq<Level>, E0: map<nat, Edge>, Ep: map<nat, Edge>, E: map<nat, Edge>,
                 rep: Option<nat>, i: nat, v: nat, u: nat, id: nat, list: seq<Slot>, k: nat, w: nat)
    requires Kept(E0, Ep) && |V| == |Vp| == |V0| && 1 <= i < |V|
    requires forall j | i <= j < |Vp| :: Vp[j] == V0[j]
    requires forall j | 0 <= j < |V| && j != i - 1 :: V[j] == Vp[j]
    requires rep.Some? ==> Replacement(Vp, Ep, rep.value, i, v, u) && rep.value != id
    requires DistinctEdges(list) && k < |list| && list[k].edge == id && id in Ep && Ep[id].lvl == i
    requires forall k' | k <= k' < |list| :: SlotOk(Ep, i, w, list[k'])
    requires id in E && E == Ep[id := Ep[id].(lvl := i - 1, firstLink := Ep[id].u, secondLink := Ep[id].v, treeEdges := E[id].treeEdges)]
    ensures Kept(E0, E) && (forall j | i <= j < |V| :: V[j] == V0[j])
    ensures rep.Some? ==> Replacement(V, E, rep.value, i, v, u)
    ensures forall k' | k + 1 <= k' < |list| :: SlotOk(E, i, w, list[k'])
  {
    assert V[|V| - 1] == Vp[|Vp| - 1];
    forall k' | k + 1 <= k' < |list|
      ensures SlotOk(E, i, w, list[k'])
    {
      assert SlotOk(Ep, i, w, list[k']);
      assert list[k'].edge != id;
    }
  }

  /** Level `i`'s tree from `v`: vertices of the graph that the top forest
      connects to `v`. */
  lemma SideReady(n: nat, V: seq<Level>, A: seq<seq<seq<Slot>>>, E: map<nat, Edge>, i: nat, v: nat, side: set<nat>)
    requires Good(n, V, A, E) && i < |V| && v < n && forall x :: x in side <==> Reach(EdgeSet(V[i].ends), v, x)
    ensures forall x | x in side :: x < n && Reach(TopEdges(V), v, x)
  {
    forall x | x in side
      ensures x < n && Reach(TopEdges(V), v, x)
    {
      Inside(n, V, A, E, i, v, x);
      NestedReach(n, V, A, E, i, |V| - 1, v, x);
    }
  }

  /** A tree edge of level `i` from `w` leads to a vertex the top forest
      connects to `w`. */
  lemma TreeSlot(n: nat, size: nat, V: seq<Level>, A: seq<seq<seq<Slot>>>, E: map<nat, Edge>,
                 next: nat, nh: nat, i: nat, w: nat, s: Slot)
    requires State(n, size, V, A, E, next, nh) && SlotOk(E, i, w, s) && IsTree(V, s.edge)
    ensures Reach(TopEdges(V), w, s.vertex)
  {
    var top := size - 1;
    assert Forested(V[top], nh);
    BridgeAt(V, E, nh, top, s.edge);
    assert (E[s.edge].v, E[s.edge].u) in TopEdges(V);
    ReachRefl(TopEdges(V), w);
    ReachStep(TopEdges(V), w, w, s.vertex);
  }

  // ---------------------------------------------------------------------
  // remove: what the search pushes down

  /** The edge (a, b) joins the side of `v` to the side of `u` in `S`, one
      way round or the other. */
  ghost predicate Joins(S: set<(nat, nat)>, a: nat, b: nat, v: nat, u: nat)
  {
    Crosses(S, a, b, v, u) || Crosses(S, a, b, u, v)
  }

  /** From `E0` to `E` the search of level `i` has only pushed records one
      level down: each of level `i`, and none joining the sides of `v` and
      `u` in `S`. */
  ghost predicate PushedDown(S: set<(nat, nat)>, E0: map<nat, Edge>, E: map<nat, Edge>, i: nat, v: nat, u: nat)
  {
    && Kept(E0, E)
    && forall id | id in E0 && id in E && E[id].lvl != E0[id].lvl ::
         E0[id].lvl == i && E[id].lvl + 1 == i && !Joins(S, E0[id].v, E0[id].u, v, u)
  }

  /** Every record of level `i` in `E0` with an end at `w` is below level
      `i` in `E`: the list of `w` has been scanned to its end. */
  ghost predicate DrainedAt(E0: map<nat, Edge>, E: map<nat, Edge>, i: nat, w: nat)
  {
    forall id | id in E0 && E0[id].lvl == i && (E0[id].v == w || E0[id].u == w) :: id in E && E[id].lvl < i
  }

  /** Every record of level `i` in `E0` with an end in the tree of `x` in
      `T` is below level `i` in `E`. */
  ghost predicate Drained(E0: map<nat, Edge>, E: map<nat, Edge>, i: nat, T: set<(nat, nat)>, x: nat)
  {
    forall id | id in E0 && E0[id].lvl == i && (Reach(T, x, E0[id].v) || Reach(T, x, E0[id].u)) :: id in E && E[id].lvl < i
  }

  /** No record of level `i` in `E` with an end in the tree of `x` in `T`
      joins the sides of `v` and `u` in `S`. */
  ghost predicate Uncrossed(S: set<(nat, nat)>, T: set<(nat, nat)>, E: map<nat, Edge>, i: nat, x: nat, v: nat, u: nat)
  {
    forall id | id in E && E[id].lvl == i && (Reach(T, x, E[id].v) || Reach(T, x, E[id].u)) :: !Joins(S, E[id].v, E[id].u, v, u)
  }

  /** Pushing down record `id` of level `i`, seen from its end `w` on the
      side of `v`: its other end `x` is on that side too, or not connected
      to `u`, so the record joins nothing. */
  lemma PushOne(S: set<(nat, nat)>, E0: map<nat, Edge>, E: map<nat, Edge>, i: nat, v: nat, u: nat, id: nat, w: nat, x: nat)
    requires id in E0 && id in E && E0[id].lvl == i && E == E0[id := E[id]]
    requires E[id].v == E0[id].v && E[id].u == E0[id].u && E[id].lvl + 1 == i
    requires (w == E0[id].v && x == E0[id].u) || (w == E0[id].u && x == E0[id].v)
    requires Reach(S, v, w) && !Reach(S, v, u) && (Reach(S, w, x) || !Reach(S, x, u))
    ensures PushedDown(S, E0, E, i, v, u)
  {
    if Joins(S, w, x, v, u) {
      if Reach(S, u, w) {
        ReachSym(S, u, w);
      }
      if Reach(S, u, x) {
        ReachSym(S, u, x);
      }
      if Reach(S, w, u) {
        ReachTrans(S, v, w, u);
      } else {
        ReachTrans(S, v, w, x);
        ReachTrans(S, v, x, u);
      }
    }
  }

  /** Two stretches of the search of level `i`, the second seen from
      either side, make one. */
  lemma PushedTrans(S: set<(nat, nat)>, E0: map<nat, Edge>, E1: map<nat, Edge>, E2: map<nat, Edge>,
                    i: nat, v: nat, u: nat, a: nat, b: nat)
    requires PushedDown(S, E0, E1, i, v, u) && PushedDown(S, E1, E2, i, a, b)
    requires (a == v && b == u) || (a == u && b == v)
    ensures PushedDown(S, E0, E2, i, v, u)
  {
    forall id | id in E0 && id in E2 && E2[id].lvl != E0[id].lvl
      ensures E0[id].lvl == i && E2[id].lvl + 1 == i && !Joins(S, E0[id].v, E0[id].u, v, u)
    {
      assert id in E1;
    }
  }

  /** The list of `w`, scanned after those of `X`: what was drained stays
      drained. */
  lemma DrainedMore(S: set<(nat, nat)>, E0: map<nat, Edge>, Ep: map<nat, Edge>, E: map<nat, Edge>,
                    i: nat, v: nat, u: nat, a: nat, b: nat, X: set<nat>, w: nat)
    requires PushedDown(S, E0, Ep, i, v, u) && PushedDown(S, Ep, E, i, a, b)
    requires forall x | x in X :: DrainedAt(E0, Ep, i, x)
    requires DrainedAt(Ep, E, i, w)
    ensures forall x | x in X + {w} :: DrainedAt(E0, E, i, x)
  {
    forall x, id | x in X + {w} && id in E0 && E0[id].lvl == i && (E0[id].v == x || E0[id].u == x)
      ensures id in E && E[id].lvl < i
    {
      assert id in Ep;
      if x !in X {
        assert x == w;
      }
    }
  }

  /** After the lists of every vertex of the tree of `x` in `T` are
      scanned: every record of level `i` with an end in that tree was
      pushed down, and none of them joins the sides of `v` and `u`. */
  lemma SideDrained(S: set<(nat, nat)>, T: set<(nat, nat)>, E0: map<nat, Edge>, E: map<nat, Edge>,
                    i: nat, x: nat, v: nat, u: nat, side: set<nat>)
    requires PushedDown(S, E0, E, i, v, u)
    requires forall y :: y in side <==> Reach(T, x, y)
    requires forall y | y in side :: DrainedAt(E0, E, i, y)
    ensures Drained(E0, E, i, T, x) && Uncrossed(S, T, E0, i, x, v, u)
  {
    forall id | id in E0 && E0[id].lvl == i && (Reach(T, x, E0[id].v) || Reach(T, x, E0[id].u))
      ensures id in E && E[id].lvl < i && !Joins(S, E0[id].v, E0[id].u, v, u)
    {
      var y := if Reach(T, x, E0[id].v) then E0[id].v else E0[id].u;
      assert y in side && DrainedAt(E0, E, i, y);
    }
  }

  /** What the search of level `i` left unjoined in `Ep` was so before it,
      in `E0`, whose records of level `i` and up it had not touched. */
  lemma UncrossedBefore(S: set<(nat, nat)>, T: set<(nat, nat)>, E0: map<nat, Edge>, Ep: map<nat, Edge>,
                        i: nat, x: nat, a: nat, b: nat, v: nat, u: nat)
    requires Kept(E0, Ep) && forall id | id in E0 && E0[id].lvl >= i :: id in Ep && Ep[id].lvl == E0[id].lvl
    requires (a == v && b == u) || (a == u && b == v)
    requires Uncrossed(S, T, Ep, i, x, a, b)
    ensures Uncrossed(S, T, E0, i, x, v, u)
  {
    forall id | id in E0 && E0[id].lvl == i && (Reach(T, x, E0[id].v) || Reach(T, x, E0[id].u))
      ensures !Joins(S, E0[id].v, E0[id].u, v, u)
    {
      assert id in Ep && Ep[id].lvl == i;
    }
  }

  // ---------------------------------------------------------------------
  // remove: the replacement linked

  /** After linking the replacement `r` at the levels from the top down to
      `j`: its list holds its handles of these levels, every other record
      and handle is as it was, and each of these forests
      has gained the pair of `r`. */
  ghost predicate Promoting(n: nat, V0: seq<Level>, V: seq<Level>, A: seq<seq<seq<Slot>>>, E0: map<nat, Edge>, E: map<nat, Edge>,
                            r: nat, j: nat)
  {
    && |V| == |V0| && j <= |V| && Core(n, V, A, E)
    && r in E0 && r in E && E == E0[r := E0[r].(treeEdges := E[r].treeEdges)]
    && |E[r].treeEdges| == |V| - j && HeldAll(V, r, E[r].treeEdges)
    && (forall j' | 0 <= j' < j :: V[j'] == V0[j'])
    && (forall j' | j <= j' < |V| :: r in V[j'].handles && EdgeSet(V[j'].ends) == EdgeSet(V0[j'].ends) + {(E0[r].v, E0[r].u)})
    && (forall j', id2 | 0 <= j' < |V| && id2 != r :: id2 in V[j'].handles <==> id2 in V0[j'].handles)
    && (forall j', id2 | 0 <= j' < |V| && id2 != r && id2 in V0[j'].handles :: V[j'].handles[id2] == V0[j'].handles[id2])
  }

  /** A replacement may be linked at every level: no forest connects its
      ends, and it holds no handle. */
  lemma PromoteReady(n: nat, size: nat, V: seq<Level>, A: seq<seq<seq<Slot>>>, E: map<nat, Edge>,
                     next: nat, nh: nat, r: nat, i: nat, v: nat, u: nat)
    requires State(n, size, V, A, E, next, nh) && Replacement(V, E, r, i, v, u) && !Reach(TopEdges(V), v, u)
    ensures E[r].treeEdges == [] && i < size
    ensures forall j | 0 <= j < size :: r !in V[j].handles && !Reach(EdgeSet(V[j].ends), E[r].v, E[r].u)
    ensures Promoting(n, V, V, A, E, E, r, size)
  {
    TreeIffHeld(n, V, A, E, next, r);
    assert RecordOk(n, size, E[r]);
    CrossingApart(TopEdges(V), E[r].v, E[r].u, v, u);
    forall j | 0 <= j < size
      ensures r !in V[j].handles && !Reach(EdgeSet(V[j].ends), E[r].v, E[r].u)
    {
      Apart(n, V, A, E, r, j);
    }
    assert E == E[r := E[r].(treeEdges := E[r].treeEdges)];
  }

  /** The next level down: not yet touched, so neither holding `r` nor
      connecting its ends. */
  lemma PromoteNext(n: nat, V0: seq<Level>, V: seq<Level>, A: seq<seq<seq<Slot>>>, E0: map<nat, Edge>, E: map<nat, Edge>,
                    r: nat, j: nat)
    requires Promoting(n, V0, V, A, E0, E, r, j + 1)
    requires r !in V0[j].handles && !Reach(EdgeSet(V0[j].ends), E0[r].v, E0[r].u)
    ensures r !in V[j].handles && !Reach(EdgeSet(V[j].ends), E[r].v, E[r].u)
  {
  }

  /** Linking `r` at level `j` keeps `Core`. */
  lemma PromoteCore(n: nat, V: seq<Level>, A: seq<seq<seq<Slot>>>, E: map<nat, Edge>, r: nat, j: nat, hnd: (nat, nat), tes: seq<(nat, nat)>)
    requires Core(n, V, A, E) && r in E && E[r].lvl <= j < |V| && r !in V[j].handles && hnd.0 !in V[j].ends
    ensures Core(n, V[j := Added(V[j], r, hnd, (E[r].v, E[r].u))], A, E[r := E[r].(treeEdges := tes)])
  {
    Extend(n, V, A, E, r, j, hnd);
    Retag(n, V[j := Added(V[j], r, hnd, (E[r].v, E[r].u))], A, E, r, tes);
  }

  /** Linking `r` at level `j`, its new handle appended to its list, keeps
      its list holding its handles. */
  lemma PromoteHeld(V: seq<Level>, r: nat, j: nat, hnd: (nat, nat), p: (nat, nat), tes: seq<(nat, nat)>)
    requires HeldAll(V, r, tes) && |tes| == |V| - 1 - j && j < |V|
    ensures HeldAll(V[j := Added(V[j], r, hnd, p)], r, tes + [hnd])
  {
    var V' := V[j := Added(V[j], r, hnd, p)];
    var tes' := tes + [hnd];
    forall k | 0 <= k < |tes'|
      ensures HeldAt(V', r, k, tes'[k])
    {
      if k < |tes| {
        assert HeldAt(V, r, k, tes[k]);
        assert tes'[k] == tes[k];
      }
    }
  }

  /** Linking `r` at level `j` under handle `hnd`, appended to its
      list. */
  lemma PromoteStep(n: nat, V0: seq<Level>, V: seq<Level>, A: seq<seq<seq<Slot>>>, E0: map<nat, Edge>, E: map<nat, Edge>,
                    r: nat, j: nat, hnd: (nat, nat))
    requires Promoting(n, V0, V, A, E0, E, r, j + 1) && E0[r].lvl <= j
    requires r !in V[j].handles && hnd.0 !in V[j].ends
    ensures Promoting(n, V0, V[j := Added(V[j], r, hnd, (E0[r].v, E0[r].u))], A, E0,
                      E[r := E[r].(treeEdges := E[r].treeEdges + [hnd])], r, j)
  {
    var p := (E0[r].v, E0[r].u);
    var V' := V[j := Added(V[j], r, hnd, p)];
    var tes := E[r].treeEdges + [hnd];
    var E' := E[r := E[r].(treeEdges := tes)];
    PromoteCore(n, V, A, E, r, j, hnd, tes);
    PromoteHeld(V, r, j, hnd, p, E[r].treeEdges);
    EdgeSetAdd(V[j].ends, hnd.0, p);
    assert V[j] == V0[j];
    forall j' | j <= j' < |V'|
      ensures r in V'[j'].handles && EdgeSet(V'[j'].ends) == EdgeSet(V0[j'].ends) + {p}
    {
    }
  }

  /** After the last step: `r` is a tree edge, the invariant holds again,
      and the top forest has gained the pair of `r`. */
  lemma PromoteDone(n: nat, V0: seq<Level>, V: seq<Level>, A: seq<seq<seq<Slot>>>, E0: map<nat, Edge>, E: map<nat, Edge>,
                    r: nat, i: nat, next: nat)
    requires Inv(n, V0, A, E0, next) && Promoting(n, V0, V, A, E0, E, r, i)
    requires E0[r].lvl == i && i < |V| && forall j | 0 <= j < |V| :: r !in V0[j].handles
    ensures Inv(n, V, A, E, next) && IsTree(V, r)
    ensures TopEdges(V) == TopEdges(V0) + {(E0[r].v, E0[r].u)}
  {
    CompleteFrom(V0, V, E0, E, r);
    KeepOthers(V0, V, E0, E, r);
    assert Holding(V, r, E[r]);
  }
}

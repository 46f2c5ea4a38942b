/**
 * DynamicGraph.java: fully dynamic connectivity over `n` vertices with
 * `size` levels of spanning forests. `add` and `remove` keep the top
 * forest a forest of edges of the graph whose trees the queries read;
 * `remove` of a tree edge looks, level by level from the edge's own
 * upwards, for a non-tree edge that reconnects the two halves, pushing
 * down every edge it looks at and does not use.
 *
 * The forest of each level is its tree edges by handle (a `Level`, see
 * AbstractForest), which `link` and `cut` update and whose trees the
 * queries search; LevelForests shows that an EulerTourForest does the
 * same. Edges are records in `edges`, by a number handed out once (the
 * `Edge` objects of the source, which the graph alone updates); a token
 * holds that number. The adjacency lists are sequences of `Slot`s
 * (Levels).
 */
module Connectivity {

  import opened Wrappers
  import opened Graph
  import opened ForestTheory
  import opened Levels
  import opened Handles
  import opened AbstractForest
  import opened GraphState

  /** `EdgeToken`: the edge an `add` made, cleared by the first `remove`. */
  class EdgeToken {
    var edge: Option<nat>

    constructor (edge: Option<nat>)
      ensures this.edge == edge
    {
      this.edge := edge;
    }
  }

  /** The constructor's loops: per level, an empty forest and a row of `n`
      empty lists. */
  method EmptyLevels(n: nat, size: nat) returns (ls: seq<Level>, adj: seq<seq<seq<Slot>>>)
    ensures ls == seq(size, _ => Level(map[], map[], map[], map[]))
    ensures adj == seq(size, _ => seq(n, _ => []))
  {
    ls, adj := [], [];
    var i := 0;
    while i < size
      invariant i <= size
      invariant ls == seq(i, _ => Level(map[], map[], map[], map[]))
      invariant adj == seq(i, _ => seq(n, _ => []))
    {
      var row: seq<seq<Slot>> := [];
      var k := 0;
      while k < n
        invariant k <= n && row == seq(k, _ => [])
      {
        row := row + [[]];
        k := k + 1;
      }
      ls, adj := ls + [Level(map[], map[], map[], map[])], adj + [row];
      i := i + 1;
    }
  }

  class DynamicGraph {
    const n: nat
    const size: nat
    /** The forest of each level. */
    var levels: seq<Level>
    var adjLists: seq<seq<seq<Slot>>>
    var edges: map<nat, Edge>
    var nextEdge: nat
    /** The next handle a `link` hands out, with its mate after it. */
    var nextHandle: nat

    ghost predicate Valid()
      reads this
    {
      State(n, size, levels, adjLists, edges, nextEdge, nextHandle)
    }

    /** The edges of the graph. */
    ghost function Graph(): set<(nat, nat)>
      reads this`edges
    {
      Pairs(edges)
    }

    /** The tree edges of the top forest. */
    ghost function Spanning(): set<(nat, nat)>
      reads this`levels
    {
      TopEdges(levels)
    }

    /** `DynamicGraph(n)` for `n >= 1`: `size` empty forests and `size`
        rows of `n` empty lists. */
    constructor (n: nat)
      requires n >= 1
      ensures Valid() && this.n == n && size == LevelCount(n) && edges == map[]
      ensures levels == seq(size, _ => Level(map[], map[], map[], map[]))
      ensures adjLists == seq(size, _ => seq(n, _ => []))
      ensures forall v, u | 0 <= v < n && 0 <= u < n :: Reach(Spanning(), v, u) <==> v == u
    {
      var size := LevelCount(n);
      var ls, adj := EmptyLevels(n, size);
      this.n := n;
      this.size := size;
      levels, adjLists := ls, adj;
      edges := map[];
      nextEdge, nextHandle := 0, 0;
      new;
      EmptyGood(n, size);
      assert EdgeSet(levels[size - 1].ends) == {};
      forall v, u | 0 <= v < n && 0 <= u < n
        ensures Reach(Spanning(), v, u) <==> v == u
      {
        NoEdges(v, u);
      }
    }

    /** `new DynamicGraph(n)` as a whole: `IllegalArgumentException`
        (here `None`) for `n <= 0`, otherwise a graph of `n` vertices and
        no edges. */
    static method Create(n: int) returns (g: Option<DynamicGraph>)
      ensures g.None? <==> n <= 0
      ensures g.Some? ==> fresh(g.value) && g.value.Valid() && g.value.n == n && g.value.edges == map[]
    {
      if n <= 0 {
        return None;
      }
      var d := new DynamicGraph(n);
      return Some(d);
    }

    // -------------------------------------------------------------------
    // Queries

    /** `isConnected(v, u)`: `true` whatever `v` and `u` are when the top
        forest connects every two of at least two vertices; otherwise an
        end out of range is `IndexOutOfBoundsException` (here `None`), and
        the answer is whether the top forest connects `v` and `u`. What
        the top forest connects, the graph connects. */
    method IsConnected(v: int, u: int) returns (b: Option<bool>)
      requires Valid()
      ensures 0 <= v < n && 0 <= u < n ==> b == Some(Reach(Spanning(), v, u))
      ensures !(0 <= v < n && 0 <= u < n) ==>
        b == if n >= 2 && forall x, y | 0 <= x < n && 0 <= y < n :: Reach(Spanning(), x, y) then Some(true) else None
      ensures b == Some(true) && 0 <= v < n && 0 <= u < n ==> Reach(Graph(), v, u)
    {
      var all := IsAllConnected();
      if all {
        return Some(true);
      }
      if !(0 <= v < n && 0 <= u < n) {
        return None;
      }
      Shapes(n, size, levels, adjLists, edges, nextEdge, nextHandle);
      var c := Spread(levels[size - 1].ends, v);
      b := Some(u in c);
      if u in c {
        TopReach(n, levels, adjLists, edges, v, u);
      }
    }

    /** `isConnected()`: there are at least two vertices and the top
        forest connects every two of them (as written, a graph of one
        vertex answers `false`, see EulerTourForest.IsAllConnectedAsWritten). */
    method IsAllConnected() returns (b: bool)
      requires Valid()
      ensures b <==> n >= 2 && forall v, u | 0 <= v < n && 0 <= u < n :: Reach(Spanning(), v, u)
      ensures b ==> forall v, u | 0 <= v < n && 0 <= u < n :: Reach(Graph(), v, u)
    {
      Shapes(n, size, levels, adjLists, edges, nextEdge, nextHandle);
      var c := Spread(levels[size - 1].ends, 0);
      b := n >= 2 && forall x | 0 <= x < n :: x in c;
      ghost var S := Spanning();
      if b {
        forall v, u | 0 <= v < n && 0 <= u < n
          ensures Reach(S, v, u) && Reach(Graph(), v, u)
        {
          ReachBoth(S, 0, v, u);
          TopReach(n, levels, adjLists, edges, v, u);
        }
      } else if n >= 2 {
        var x :| 0 <= x < n && x !in c;
        assert !Reach(S, 0, x);
      }
    }

    // -------------------------------------------------------------------
    // Steps on one forest

    /** `link(x, y)` on the forest of level `j` for record `id`: the
        forest gains the edge (x, y) under the fresh handle `h` (the pair
        the returned `TreeEdge` holds). */
    method LinkAt(j: nat, id: nat, x: nat, y: nat) returns (h: (nat, nat))
      requires Woods(levels, size, nextHandle) && j < size
      requires !Reach(EdgeSet(levels[j].ends), x, y)
      modifies this`levels, this`nextHandle
      ensures Woods(levels, size, nextHandle) && nextHandle == old(nextHandle) + 2
      ensures h == (old(nextHandle), old(nextHandle) + 1) && h.0 !in old(levels[j].ends)
      ensures levels == old(levels)[j := Added(old(levels[j]), id, h, (x, y))]
      ensures EdgeSet(levels[j].ends) == old(EdgeSet(levels[j].ends)) + {(x, y)}
    {
      h := (nextHandle, nextHandle + 1);
      LinkForested(levels[j], id, nextHandle, (x, y));
      ghost var V := levels;
      levels := levels[j := Added(levels[j], id, h, (x, y))];
      nextHandle := nextHandle + 2;
      WoodsLink(V, size, h.0, j, id, (x, y));
    }

    /** `cut(h)` on the forest of level `j`, where `h` is the tree edge of
        record `id` there: the forest loses that tree edge. */
    method CutAt(j: nat, h: (nat, nat), id: nat)
      requires Woods(levels, size, nextHandle) && j < size && id in levels[j].handles
      requires levels[j].handles[id] == h && h.0 in levels[j].ends
      modifies this`levels
      ensures Woods(levels, size, nextHandle)
      ensures levels == old(levels)[j := Removed(old(levels[j]), id)]
      ensures EdgeSet(levels[j].ends) == old(EdgeSet(levels[j].ends) - {levels[j].ends[h.0]})
    {
      CutForested(levels[j], id, nextHandle);
      WoodsCut(levels, size, nextHandle, j, id);
      levels := levels[j := Removed(levels[j], id)];
    }

    // -------------------------------------------------------------------
    // add

    /** `add(v, u)`: a self-loop gives an empty token and changes nothing;
        an end out of range is `IllegalArgumentException` (here `None`);
        otherwise a new edge of the top level, a tree edge exactly when
        `v` and `u` were not connected, and a token for it. */
    method Add(v: int, u: int) returns (token: Option<EdgeToken>)
      requires Valid()
      modifies this
      ensures Valid() && (token.Some? ==> fresh(token.value))
      ensures v == u ==> token.Some? && token.value.edge.None?
      ensures v != u && !(0 <= v < n && 0 <= u < n) ==> token.None?
      ensures v == u || !(0 <= v < n && 0 <= u < n) ==> edges == old(edges) && levels == old(levels) && adjLists == old(adjLists)
      ensures v != u && 0 <= v < n && 0 <= u < n ==>
        && token.Some? && token.value.edge == Some(old(nextEdge)) && old(nextEdge) !in old(edges)
        && old(nextEdge) in edges
        && edges == old(edges)[old(nextEdge) := Edge(size - 1, v, u, v, u, edges[old(nextEdge)].treeEdges)]
        && adjLists == Subscribe(old(adjLists), size - 1, v, u, old(nextEdge)) && nextEdge == old(nextEdge) + 1
        && (forall j | 0 <= j < size - 1 :: levels[j] == old(levels[j]))
        && Graph() == old(Graph()) + {(v, u)}
        && (IsTree(levels, old(nextEdge)) <==> !Reach(old(Spanning()), v, u))
        && Spanning() == (if Reach(old(Spanning()), v, u) then old(Spanning()) else old(Spanning()) + {(v, u)})
        && Reach(Spanning(), v, u)
    {
      if v == u {
        var t := new EdgeToken(None);
        return Some(t);
      }
      if !(0 <= v < n && 0 <= u < n) {
        return None;
      }
      var id := Insert(v, u);
      var t := new EdgeToken(Some(id));
      return Some(t);
    }

    /** The body of `add(v, u)` for two distinct vertices of the graph: the
        new record of the top level and its two nodes, and its link in the
        top forest when `v` and `u` were not connected. */
    method Insert(v: nat, u: nat) returns (id: nat)
      requires Valid() && v != u && v < n && u < n
      modifies this`levels, this`nextHandle, this`edges, this`adjLists, this`nextEdge
      ensures Valid() && id == old(nextEdge) && id !in old(edges) && id in edges
      ensures edges == old(edges)[id := Edge(size - 1, v, u, v, u, edges[id].treeEdges)]
      ensures adjLists == Subscribe(old(adjLists), size - 1, v, u, id) && nextEdge == id + 1
      ensures forall j | 0 <= j < size - 1 :: levels[j] == old(levels[j])
      ensures Graph() == old(Graph()) + {(v, u)}
      ensures IsTree(levels, id) <==> !Reach(old(Spanning()), v, u)
      ensures Spanning() == (if Reach(old(Spanning()), v, u) then old(Spanning()) else old(Spanning()) + {(v, u)})
      ensures Reach(Spanning(), v, u)
    {
      Shapes(n, size, levels, adjLists, edges, nextEdge, nextHandle);
      var top := size - 1;
      id := nextEdge;
      ghost var V, A, E := levels, adjLists, edges;
      var c := IsConnected(v, u);
      var connected := c == Some(true);
      var tes: seq<(nat, nat)> := [];
      ghost var hnd := (nextHandle, nextHandle + 1);
      if !connected {
        var h := LinkAt(top, id, v, u);
        tes := [h];
        ReachRefl(Spanning(), v);
        ReachStep(Spanning(), v, v, u);
      }
      var e := Edge(top, v, u, v, u, tes);
      edges, adjLists, nextEdge := edges[id := e], Subscribe(adjLists, top, v, u, id), nextEdge + 1;
      InvAdd(n, V, A, E, id, e, !connected, hnd);
      PairsAdd(E, id, e);
    }

    // -------------------------------------------------------------------
    // downgrade

    /** `downgrade(e)`: edge `id` moves one level down, its nodes to the
        lists of that level with its ends swapped; a tree edge is also
        linked in the forest of that level, and its new handle object
        appended to its list. Nothing else changes, the top forest least
        of all. */
    method Downgrade(id: nat)
      requires Valid() && id in edges && RecordOk(n, size, edges[id]) && edges[id].lvl >= 1
      modifies this`levels, this`nextHandle, this`edges, this`adjLists
      ensures Valid() && nextEdge == old(nextEdge)
      ensures var e := old(edges[id]);
        && id in edges
        && edges == old(edges)[id := e.(lvl := e.lvl - 1, firstLink := e.u, secondLink := e.v, treeEdges := edges[id].treeEdges)]
        && adjLists == Subscribe(Unsubscribe(old(adjLists), e.lvl, e.firstLink, e.secondLink, id), e.lvl - 1, e.u, e.v, id)
      ensures forall j | 0 <= j < size && j != old(edges[id].lvl) - 1 :: levels[j] == old(levels[j])
      ensures IsTree(levels, id) == old(IsTree(levels, id))
      ensures var j := old(edges[id].lvl) - 1;
        EdgeSet(levels[j].ends) ==
          if old(IsTree(levels, id)) then old(EdgeSet(levels[j].ends)) + {(old(edges[id].v), old(edges[id].u))}
          else old(EdgeSet(levels[j].ends))
    {
      Shapes(n, size, levels, adjLists, edges, nextEdge, nextHandle);
      TreeIffHeld(n, levels, adjLists, edges, nextEdge, id);
      ghost var V, A, E := levels, adjLists, edges;
      var e := edges[id];
      var j := e.lvl - 1;
      var tree := e.treeEdges != [];
      if tree {
        LinkReady(n, size, levels, adjLists, edges, nextEdge, nextHandle, id);
      }
      edges := edges[id := e.(lvl := j, firstLink := e.u, secondLink := e.v)];
      adjLists := Subscribe(Unsubscribe(adjLists, e.lvl, e.firstLink, e.secondLink, id), j, e.u, e.v, id);
      if tree {
        var h := LinkAt(j, id, e.v, e.u);
        var tes := e.treeEdges + [h];
        edges := edges[id := edges[id].(treeEdges := tes)];
        InvDown(n, V, A, E, nextEdge, id, tes, h);
        assert edges == E[id := e.(lvl := j, firstLink := e.u, secondLink := e.v, treeEdges := tes)];
      } else {
        InvDown(n, V, A, E, nextEdge, id, e.treeEdges, (0, 0));
        assert edges == E[id := e.(lvl := j, firstLink := e.u, secondLink := e.v, treeEdges := e.treeEdges)];
      }
    }

    // -------------------------------------------------------------------
    // remove: taking the edge out

    /** The first loop of `remove`: the tree edges of `id` cut from the top
        level down to its own, each with the handle object of its level. */
    method CutAll(id: nat)
      requires Valid() && id in edges && IsTree(levels, id)
      modifies this`levels
      ensures Woods(levels, size, nextHandle) && Core(n, levels, adjLists, edges)
      ensures forall j | 0 <= j < size :: levels[j].handles == old(levels[j].handles) - {id}
      ensures (edges[id].v, edges[id].u) in old(Spanning())
      ensures Spanning() == old(Spanning()) - {(edges[id].v, edges[id].u)}
      ensures !Reach(Spanning(), edges[id].v, edges[id].u)
      ensures forall j | edges[id].lvl <= j < size ::
        EdgeSet(levels[j].ends) == old(EdgeSet(levels[j].ends)) - {(edges[id].v, edges[id].u)}
    {
      ghost var V0 := levels;
      var tes := edges[id].treeEdges;
      CutReady(n, size, levels, adjLists, edges, nextEdge, nextHandle, id);
      var i := 0;
      while i < |tes|
        invariant 0 <= i <= |tes| == size - edges[id].lvl
        invariant Woods(levels, size, nextHandle) && Core(n, levels, adjLists, edges)
        invariant Cutting(V0, levels, id, i)
      {
        var j := size - 1 - i;
        CutNext(n, V0, levels, adjLists, edges, id, tes, i);
        ghost var Vp := levels;
        CutAt(j, tes[i], id);
        Shrink(n, Vp, adjLists, edges, id, j);
        CuttingNext(V0, Vp, levels, id, i);
        i := i + 1;
      }
      assert RecordOk(n, |levels|, edges[id]);
      CutHandles(V0, levels, edges, id);
      CutTop(V0, levels, edges, id, nextHandle);
      forall j | edges[id].lvl <= j < size
        ensures EdgeSet(levels[j].ends) == EdgeSet(V0[j].ends) - {(edges[id].v, edges[id].u)}
      {
        LevelCut(V0, levels, edges, id, nextHandle, j);
      }
    }

    /** `remove` up to the search: the tree edges of `id` cut, its nodes
        unlinked and the record dropped. */
    method Detach(id: nat)
      requires Valid() && id in edges && RecordOk(n, size, edges[id])
      modifies this`levels, this`edges, this`adjLists
      ensures Valid() && nextEdge == old(nextEdge) && edges == old(edges) - {id}
      ensures var e := old(edges[id]); adjLists == Unsubscribe(old(adjLists), e.lvl, e.firstLink, e.secondLink, id)
      ensures old(IsTree(levels, id)) ==>
        && (old(edges[id].v), old(edges[id].u)) in old(Spanning())
        && Spanning() == old(Spanning()) - {(old(edges[id].v), old(edges[id].u))}
        && !Reach(Spanning(), old(edges[id].v), old(edges[id].u))
        && forall j | old(edges[id].lvl) <= j < size ::
             EdgeSet(levels[j].ends) == old(EdgeSet(levels[j].ends)) - {(old(edges[id].v), old(edges[id].u))}
      ensures !old(IsTree(levels, id)) ==> levels == old(levels)
    {
      TreeIffHeld(n, levels, adjLists, edges, nextEdge, id);
      ghost var V0, A0, E0 := levels, adjLists, edges;
      var e := edges[id];
      if e.treeEdges != [] {
        CutAll(id);
      } else {
        Unheld(n, levels, adjLists, edges, nextEdge, id);
      }
      adjLists := Unsubscribe(adjLists, e.lvl, e.firstLink, e.secondLink, id);
      edges := edges - {id};
      InvDrop(n, V0, levels, A0, E0, nextEdge, id);
    }

    // -------------------------------------------------------------------
    // remove: the search for a replacement

    /** `downgrade` of the edge of node `s` (place `k` of `list`, the list
        of `w` at level `i >= 1`) during the search: its far end is on the
        side of `v` or not connected to `u`, so the edge, pushed one level
        down, does not join the two sides. */
    method PushSlot(i: nat, w: nat, u: nat, ghost v: nat, s: Slot, ghost list: seq<Slot>, ghost k: nat, ghost rep: Option<nat>)
      requires Valid() && 1 <= i < size && w < n && u < n
      requires k < |list| && s == list[k] && DistinctEdges(list)
      requires forall k' | k <= k' < |list| :: SlotOk(edges, i, w, list[k'])
      requires Reach(Spanning(), v, w) && !Reach(Spanning(), v, u)
      requires Reach(Spanning(), w, s.vertex) || !Reach(Spanning(), s.vertex, u)
      requires rep.Some? ==> Replacement(levels, edges, rep.value, i, v, u) && rep.value != s.edge
      modifies this`levels, this`nextHandle, this`edges, this`adjLists
      ensures Valid() && nextEdge == old(nextEdge)
      ensures PushedDown(old(Spanning()), old(edges), edges, i, v, u)
      ensures forall j | i <= j < size :: levels[j] == old(levels[j])
      ensures rep.Some? ==> Replacement(levels, edges, rep.value, i, v, u)
      ensures s.edge in edges && edges[s.edge].lvl + 1 == i
      ensures forall k' | k < k' < |list| :: SlotOk(edges, i, w, list[k'])
    {
      Shapes(n, size, levels, adjLists, edges, nextEdge, nextHandle);
      ghost var E0, V0 := edges, levels;
      ghost var S := Spanning();
      ScanReady(n, size, levels, adjLists, edges, nextEdge, nextHandle, i, w, list, k);
      Downgrade(s.edge);
      ScanDown(V0, V0, levels, E0, E0, edges, rep, i, v, u, s.edge, list, k, w);
      TopSame(V0, levels);
      PushOne(S, E0, edges, i, v, u, s.edge, w, s.vertex);
    }

    /** One node `s` (place `k` of `list`, the list of `w` at level `i`)
        of the inner loop of the search: a tree edge is pushed down; a
        non-tree edge stops the loop (`stop`) when a replacement is already
        known, becomes the replacement when its far end is connected to
        `u` at the top, and is pushed down otherwise. Pushing an edge below
        level 0 is the `IndexOutOfBoundsException` of the source, here `ok`
        false (and `stop`) before anything changes. */
    method Visit(i: nat, w: nat, u: nat, ghost v: nat, s: Slot, ghost list: seq<Slot>, ghost k: nat, rep0: Option<nat>)
      returns (rep: Option<nat>, ok: bool, stop: bool)
      requires Valid() && i < size && w < n && u < n
      requires k < |list| && s == list[k] && DistinctEdges(list)
      requires forall k' | k <= k' < |list| :: SlotOk(edges, i, w, list[k'])
      requires Reach(Spanning(), v, w) && !Reach(Spanning(), v, u)
      requires rep0.Some? ==> Replacement(levels, edges, rep0.value, i, v, u)
      requires rep0.None? ==> forall k' | 0 <= k' < k :: list[k'].edge in edges && edges[list[k'].edge].lvl < i
      modifies this`levels, this`nextHandle, this`edges, this`adjLists
      ensures Valid() && nextEdge == old(nextEdge)
      ensures PushedDown(old(Spanning()), old(edges), edges, i, v, u)
      ensures forall j | i <= j < size :: levels[j] == old(levels[j])
      ensures !stop && rep.None? ==> forall k' | 0 <= k' <= k :: list[k'].edge in edges && edges[list[k'].edge].lvl < i
      ensures (!ok ==> stop) && (stop ==> rep == rep0) && (i >= 1 ==> ok) && (stop && ok ==> rep0.Some?)
      ensures stop ==> edges == old(edges) && levels == old(levels) && adjLists == old(adjLists)
      ensures rep0.Some? ==> rep == rep0
      ensures rep.Some? ==> Replacement(levels, edges, rep.value, i, v, u)
      ensures old(IsTree(levels, s.edge)) && i >= 1 ==> !stop && rep == rep0
      ensures !old(IsTree(levels, s.edge)) && rep0.Some? ==> stop
      ensures !old(IsTree(levels, s.edge)) && rep0.None? && Reach(old(Spanning()), s.vertex, u) ==> !stop && rep == Some(s.edge)
      ensures !stop && rep == rep0 ==> s.edge in edges && edges[s.edge].lvl + 1 == i
      ensures !stop ==> forall k' | k < k' < |list| :: SlotOk(edges, i, w, list[k'])
    {
      Shapes(n, size, levels, adjLists, edges, nextEdge, nextHandle);
      ScanReady(n, size, levels, adjLists, edges, nextEdge, nextHandle, i, w, list, k);
      rep, ok, stop := rep0, true, false;
      if edges[s.edge].treeEdges == [] {
        if rep.Some? {
          return rep, true, true;
        }
        var c := IsConnected(s.vertex, u);
        if c == Some(true) {
          FoundReplacement(levels, edges, s, i, w, v, u);
          return Some(s.edge), true, false;
        }
      } else {
        TreeSlot(n, size, levels, adjLists, edges, nextEdge, nextHandle, i, w, s);
      }
      if i == 0 {
        return rep, false, true;
      }
      PushSlot(i, w, u, v, s, list, k, rep);
      if rep.None? {
        forall k' | 0 <= k' <= k
          ensures list[k'].edge in edges && edges[list[k'].edge].lvl < i
        {
          if k' < k {
            assert old(edges)[list[k'].edge].lvl < i;
          }
        }
      }
    }

    /** The inner loop of the search, over the list of `w` at level `i`,
        node by node until a node stops it. Unless a replacement is known,
        every edge of level `i` at `w` has been pushed down. */
    method ScanList(i: nat, w: nat, u: nat, ghost v: nat, rep0: Option<nat>) returns (rep: Option<nat>, ok: bool)
      requires Valid() && i < size && w < n && u < n
      requires Reach(Spanning(), v, w) && !Reach(Spanning(), v, u)
      requires rep0.Some? ==> Replacement(levels, edges, rep0.value, i, v, u)
      modifies this`levels, this`nextHandle, this`edges, this`adjLists
      ensures Valid() && nextEdge == old(nextEdge)
      ensures PushedDown(old(Spanning()), old(edges), edges, i, v, u)
      ensures forall j | i <= j < size :: levels[j] == old(levels[j])
      ensures i >= 1 ==> ok
      ensures rep0.Some? ==> rep == rep0
      ensures rep.Some? ==> Replacement(levels, edges, rep.value, i, v, u)
      ensures ok && rep.None? ==> DrainedAt(old(edges), edges, i, w)
    {
      Shapes(n, size, levels, adjLists, edges, nextEdge, nextHandle);
      rep, ok := rep0, true;
      var list := adjLists[i][w];
      ghost var E0, V0 := edges, levels;
      ghost var S := Spanning();
      ListReady(n, size, levels, adjLists, edges, nextEdge, nextHandle, i, w);
      var k := 0;
      while k < |list|
        invariant k <= |list| && Valid() && nextEdge == old(nextEdge) && ok
        invariant PushedDown(S, E0, edges, i, v, u)
        invariant forall j | i <= j < size :: levels[j] == V0[j]
        invariant rep0.Some? ==> rep == rep0
        invariant rep.Some? ==> Replacement(levels, edges, rep.value, i, v, u)
        invariant forall k' | k <= k' < |list| :: SlotOk(edges, i, w, list[k'])
        invariant rep.None? ==> forall k' | 0 <= k' < k :: list[k'].edge in edges && edges[list[k'].edge].lvl < i
      {
        ghost var Ep := edges;
        var stop;
        TopSame(V0, levels);
        rep, ok, stop := Visit(i, w, u, v, list[k], list, k, rep);
        PushedTrans(S, E0, Ep, edges, i, v, u, v, u);
        if stop {
          return;
        }
        k := k + 1;
      }
      if rep.None? {
        forall id | id in E0 && E0[id].lvl == i && (E0[id].v == w || E0[id].u == w)
          ensures id in edges && edges[id].lvl < i
        {
          var sl := Slot(if E0[id].v == w then E0[id].u else E0[id].v, id);
          var k' :| 0 <= k' < |list| && list[k'] == sl;
        }
      }
    }

    /** One level of the search: from the smaller of the two sides at
        level `i` (`v'` names it, `u'` the other), every vertex of that
        tree has its list scanned. Unless a replacement is found, every
        edge of level `i` with an end in that tree has been pushed down,
        and none of them joins the two sides. */
    method SearchLevel(i: nat, v: nat, u: nat) returns (rep: Option<nat>, ok: bool, v': nat, u': nat)
      requires Valid() && i < size && v < n && u < n && !Reach(Spanning(), v, u)
      modifies this`levels, this`nextHandle, this`edges, this`adjLists
      ensures Valid() && nextEdge == old(nextEdge)
      ensures PushedDown(old(Spanning()), old(edges), edges, i, v, u)
      ensures forall j | i <= j < size :: levels[j] == old(levels[j])
      ensures (v' == v && u' == u) || (v' == u && u' == v)
      ensures i >= 1 ==> ok
      ensures rep.Some? ==> Replacement(levels, edges, rep.value, i, v', u')
      ensures ok && rep.None? ==>
        && Drained(old(edges), edges, i, EdgeSet(old(levels[i].ends)), v')
        && Uncrossed(old(Spanning()), EdgeSet(old(levels[i].ends)), old(edges), i, v', v, u)
    {
      Shapes(n, size, levels, adjLists, edges, nextEdge, nextHandle);
      v', u' := v, u;
      var side := Spread(levels[i].ends, v);
      var other := Spread(levels[i].ends, u);
      if TourLength(|side|) > TourLength(|other|) {
        v', u', side := u, v, other;
        ReachSymNot(Spanning(), v, u);
      }
      rep, ok := ScanSide(i, v', u', side, v, u);
    }

    /** The loop of SearchLevel over `side`, the tree of `a` at level `i`
        (`b` is on the other side of the cut edge): the list of every vertex
        of the tree is scanned until a replacement turns up. */
    method ScanSide(i: nat, a: nat, b: nat, side: set<nat>, ghost v: nat, ghost u: nat) returns (rep: Option<nat>, ok: bool)
      requires Valid() && i < size && a < n && b < n && !Reach(Spanning(), a, b)
      requires (a == v && b == u) || (a == u && b == v)
      requires forall x :: x in side <==> Reach(EdgeSet(levels[i].ends), a, x)
      modifies this`levels, this`nextHandle, this`edges, this`adjLists
      ensures Valid() && nextEdge == old(nextEdge)
      ensures PushedDown(old(Spanning()), old(edges), edges, i, v, u)
      ensures forall j | i <= j < size :: levels[j] == old(levels[j])
      ensures i >= 1 ==> ok
      ensures rep.Some? ==> Replacement(levels, edges, rep.value, i, a, b)
      ensures ok && rep.None? ==>
        && Drained(old(edges), edges, i, EdgeSet(old(levels[i].ends)), a)
        && Uncrossed(old(Spanning()), EdgeSet(old(levels[i].ends)), old(edges), i, a, v, u)
    {
      Shapes(n, size, levels, adjLists, edges, nextEdge, nextHandle);
      ghost var E0, V0 := edges, levels;
      ghost var S := Spanning();
      SideReady(n, levels, adjLists, edges, i, a, side);
      var rest := side;
      rep, ok := None, true;
      while rest != {}
        invariant rest <= side && Valid() && nextEdge == old(nextEdge) && ok
        invariant PushedDown(S, E0, edges, i, v, u)
        invariant forall j | i <= j < size :: levels[j] == V0[j]
        invariant Spanning() == S
        invariant rep.Some? ==> Replacement(levels, edges, rep.value, i, a, b)
        invariant rep.None? ==> forall x | x in side - rest :: DrainedAt(E0, edges, i, x)
        decreases |rest|
      {
        var w :| w in rest;
        ghost var done := side - rest;
        rest := rest - {w};
        ghost var Ep := edges;
        rep, ok := ScanList(i, w, b, a, rep);
        PushedTrans(S, E0, Ep, edges, i, v, u, a, b);
        if !ok {
          return;
        }
        TopSame(V0, levels);
        if rep.None? {
          DrainedMore(S, E0, Ep, edges, i, v, u, a, b, done, w);
          assert side - rest == done + {w};
        }
      }
      if rep.None? {
        SideDrained(S, EdgeSet(V0[i].ends), E0, edges, i, a, v, u, side);
      }
    }

    /** The replacement `r` found at level `i` is linked at every level
        from the top down to `i`, its handle objects appended to its list:
        it becomes a tree edge and joins the top forest. */
    method Promote(r: nat, i: nat, ghost v: nat, ghost u: nat)
      requires Valid() && i < size && Replacement(levels, edges, r, i, v, u) && !Reach(Spanning(), v, u)
      modifies this`levels, this`nextHandle, this`edges
      ensures Valid() && nextEdge == old(nextEdge) && adjLists == old(adjLists)
      ensures r in edges && edges == old(edges)[r := old(edges[r]).(treeEdges := edges[r].treeEdges)]
      ensures IsTree(levels, r) && Kept(old(edges), edges)
      ensures Crosses(old(Spanning()), edges[r].v, edges[r].u, v, u)
      ensures Spanning() == old(Spanning()) + {(edges[r].v, edges[r].u)}
    {
      ghost var V0, E0 := levels, edges;
      var a, b := edges[r].v, edges[r].u;
      PromoteReady(n, size, levels, adjLists, edges, nextEdge, nextHandle, r, i, v, u);
      var j := size;
      while j > i
        invariant i <= j <= size && Woods(levels, size, nextHandle)
        invariant Promoting(n, V0, levels, adjLists, E0, edges, r, j)
      {
        j := j - 1;
        ghost var Vp, Ep := levels, edges;
        PromoteNext(n, V0, levels, adjLists, E0, edges, r, j);
        var h := LinkAt(j, r, a, b);
        var tes := edges[r].treeEdges + [h];
        edges := edges[r := edges[r].(treeEdges := tes)];
        PromoteStep(n, V0, Vp, adjLists, E0, Ep, r, j, h);
      }
      PromoteDone(n, V0, levels, adjLists, E0, edges, r, i, nextEdge);
    }

    /** The second loop of `remove`: level by level from the removed
        edge's own, search for a replacement, and link the first found at
        every level from the top down to the one it was found at. Unless
        one is found, at every level searched no edge of that level with
        an end in the tree searched joins the two sides. */
    method Reconnect(level: nat, v: nat, u: nat) returns (rep: Option<nat>, ok: bool)
      requires Valid() && level < size && v < n && u < n && !Reach(Spanning(), v, u)
      modifies this`levels, this`nextHandle, this`edges, this`adjLists
      ensures Valid() && nextEdge == old(nextEdge) && Kept(old(edges), edges)
      ensures level >= 1 ==> ok
      ensures rep.None? ==> Spanning() == old(Spanning())
      ensures rep.Some? ==>
        && ok && rep.value in edges && IsTree(levels, rep.value)
        && Crosses(old(Spanning()), edges[rep.value].v, edges[rep.value].u, v, u)
        && Spanning() == old(Spanning()) + {(edges[rep.value].v, edges[rep.value].u)}
      ensures ok && rep.None? ==> forall i | level <= i < size ::
        || Uncrossed(old(Spanning()), EdgeSet(old(levels[i].ends)), old(edges), i, v, v, u)
        || Uncrossed(old(Spanning()), EdgeSet(old(levels[i].ends)), old(edges), i, u, v, u)
    {
      var i := level;
      var a, b := v, u;
      rep, ok := None, true;
      ghost var E0, V0 := edges, levels;
      ghost var S := Spanning();
      while i < size
        invariant level <= i <= size && Valid() && nextEdge == old(nextEdge) && Kept(E0, edges) && ok
        invariant (a == v && b == u) || (a == u && b == v)
        invariant Spanning() == S && rep.None?
        invariant forall j | i <= j < size :: levels[j] == V0[j]
        invariant forall id | id in E0 && E0[id].lvl >= i :: id in edges && edges[id].lvl == E0[id].lvl
        invariant forall j | level <= j < i ::
          Uncrossed(S, EdgeSet(V0[j].ends), E0, j, v, v, u) || Uncrossed(S, EdgeSet(V0[j].ends), E0, j, u, v, u)
        decreases size - i
      {
        var r, a', b';
        r, ok, a', b' := SearchStep(i, a, b, v, u, S, V0, E0);
        if !ok {
          return;
        }
        if r.Some? {
          rep := r;
          return;
        }
        a, b := a', b';
        i := i + 1;
      }
    }

    /** One round of the second loop of `remove`: search level `i` from
        the smaller side and link what is found from the top down to `i`.
        Stated against the top forest `S`, the levels `V0` and the records
        `E0` the loop started from: nothing found (or the search stopped)
        leaves the top forest and the levels above `i`, and a completed
        search leaves no edge of level `i` joining the two sides; a found
        edge crosses between them and the top forest gains exactly its
        pair. */
    method SearchStep(i: nat, a: nat, b: nat, ghost v: nat, ghost u: nat,
                      ghost S: set<(nat, nat)>, ghost V0: seq<Level>, ghost E0: map<nat, Edge>)
      returns (r: Option<nat>, ok: bool, a': nat, b': nat)
      requires Valid() && i < size && v < n && u < n && ((a == v && b == u) || (a == u && b == v))
      requires Spanning() == S && !Reach(S, v, u) && Kept(E0, edges) && |V0| == size
      requires forall j | i <= j < size :: levels[j] == V0[j]
      requires forall id | id in E0 && E0[id].lvl >= i :: id in edges && edges[id].lvl == E0[id].lvl
      modifies this`levels, this`nextHandle, this`edges, this`adjLists
      ensures Valid() && nextEdge == old(nextEdge) && Kept(E0, edges)
      ensures i >= 1 ==> ok
      ensures !ok || r.None? ==>
        && Spanning() == S && ((a' == v && b' == u) || (a' == u && b' == v))
        && (forall j | i < j < size :: levels[j] == V0[j])
        && (forall id | id in E0 && E0[id].lvl > i :: id in edges && edges[id].lvl == E0[id].lvl)
      ensures ok && r.None? ==>
        Uncrossed(S, EdgeSet(V0[i].ends), E0, i, v, v, u) || Uncrossed(S, EdgeSet(V0[i].ends), E0, i, u, v, u)
      ensures ok && r.Some? ==>
        && r.value in edges && IsTree(levels, r.value)
        && Crosses(S, edges[r.value].v, edges[r.value].u, v, u)
        && Spanning() == S + {(edges[r.value].v, edges[r.value].u)}
    {
      ghost var Ep := edges;
      ReachSymNot(Spanning(), v, u);
      r, ok, a', b' := SearchLevel(i, a, b);
      KeptTrans(E0, Ep, edges);
      if !ok || r.None? {
        if ok {
          UncrossedBefore(S, EdgeSet(V0[i].ends), E0, Ep, i, a', a, b, v, u);
        }
        return;
      }
      ghost var Es := edges;
      ReachSymNot(Spanning(), v, u);
      Promote(r.value, i, a', b');
      CrossesSwap(S, edges[r.value].v, edges[r.value].u, a', b', v, u);
      KeptTrans(E0, Es, edges);
    }

    /** `remove(token)`: the token is cleared first; an empty token changes
        nothing (so a second `remove` with it does nothing); otherwise its
        edge leaves the graph and its two lists. A non-tree edge leaves
        the forests as they were; a tree edge is cut at every level, and
        either a replacement joins the top forest in its place, so that
        the top forest connects exactly what it did, or none is found,
        its two ends are no longer connected, and at every level searched
        no remaining edge of that level with an end in the tree searched
        joins the two sides. Every other edge stays, at its level or
        below. */
    method Remove(token: EdgeToken) returns (ok: bool, ghost rep: Option<nat>)
      requires Valid() && (token.edge.Some? ==> token.edge.value in edges)
      modifies this, token
      ensures Valid() && token.edge.None? && nextEdge == old(nextEdge)
      ensures old(token.edge).None? ==> ok && edges == old(edges) && levels == old(levels) && adjLists == old(adjLists)
      ensures old(token.edge).Some? ==>
        var id := old(token.edge).value; var e := old(edges[id]);
        && Kept(old(edges) - {id}, edges)
        && Graph() == Pairs(old(edges) - {id})
        && (e.lvl >= 1 ==> ok)
        && (!old(IsTree(levels, id)) ==>
              && ok && rep.None? && edges == old(edges) - {id} && levels == old(levels)
              && e.lvl < |old(adjLists)| && e.firstLink < |old(adjLists)[e.lvl]| && e.secondLink < |old(adjLists)[e.lvl]|
              && adjLists == Unsubscribe(old(adjLists), e.lvl, e.firstLink, e.secondLink, id))
        && (old(IsTree(levels, id)) && rep.None? ==> Spanning() == old(Spanning()) - {(e.v, e.u)} && !Reach(Spanning(), e.v, e.u))
        && (old(IsTree(levels, id)) && ok && rep.None? ==> forall i | e.lvl <= i < size ::
              || Uncrossed(old(Spanning()) - {(e.v, e.u)}, EdgeSet(old(levels[i].ends)) - {(e.v, e.u)}, old(edges) - {id}, i, e.v, e.v, e.u)
              || Uncrossed(old(Spanning()) - {(e.v, e.u)}, EdgeSet(old(levels[i].ends)) - {(e.v, e.u)}, old(edges) - {id}, i, e.u, e.v, e.u))
        && (rep.Some? ==>
              && ok && old(IsTree(levels, id)) && rep.value in edges && IsTree(levels, rep.value)
              && Spanning() == old(Spanning()) - {(e.v, e.u)} + {(edges[rep.value].v, edges[rep.value].u)}
              && forall x, y :: Reach(Spanning(), x, y) <==> Reach(old(Spanning()), x, y))
    {
      var link := token.edge;
      token.edge := None;
      ok, rep := true, None;
      if link.None? {
        return;
      }
      var id := link.value;
      Shapes(n, size, levels, adjLists, edges, nextEdge, nextHandle);
      TreeIffHeld(n, levels, adjLists, edges, nextEdge, id);
      var e := edges[id];
      ghost var S0, V0 := Spanning(), levels;
      var complex := e.treeEdges != [];
      Detach(id);
      ghost var S1, E1, V1 := Spanning(), edges, levels;
      KeptRefl(E1);
      if complex {
        rep, ok := Reconnect(e.lvl, e.v, e.u);
        if rep.Some? {
          ExchangeAll(S0, S1, e.v, e.u, edges[rep.value].v, edges[rep.value].u);
        } else if ok {
          forall i | e.lvl <= i < size
            ensures EdgeSet(V1[i].ends) == EdgeSet(V0[i].ends) - {(e.v, e.u)}
          {
          }
        }
      }
      KeptPairs(E1, edges);
    }
  }
}

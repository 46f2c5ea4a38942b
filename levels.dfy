/**
 * The levels of DynamicGraph.java, as values. The graph keeps one
 * spanning forest per level, `size` = ⌈log₂ n⌉ + 1 of them, the last one
 * the top level. Every edge of the graph has a level, starts at the top
 * and only moves down; a tree edge of level `l` is a tree edge of the
 * forests of levels `l` to the top, and its `Edge` record holds the
 * handles of those tree edges (what its TreeEdge objects hold), the top
 * level first. Every edge also sits, by a node of a sentinel list, in the
 * adjacency lists of both of its ends at its own level.
 *
 * `Good` is the invariant that ties the records, the lists and the
 * forests together; the lemmas below say why `remove` may link where it
 * links, and that every step of the graph keeps `Good`.
 */
module Levels {

  import opened Graph
  import opened ForestTheory

  // ---------------------------------------------------------------------
  // The number of levels

  function Pow2(k: nat): (p: nat)
    ensures p >= 1
  {
    if k == 0 then 1 else 2 * Pow2(k - 1)
  }

  /** ⌈log₂ n⌉: the least `k` with 2^k >= n. */
  function CeilLog2(n: nat): (k: nat)
    requires n >= 1
    ensures n <= Pow2(k) && (k == 0 || Pow2(k - 1) < n)
  {
    if n == 1 then 0 else 1 + CeilLog2((n + 1) / 2)
  }

  /** The number of levels of a graph of `n` vertices. */
  function LevelCount(n: nat): nat
    requires n >= 1
  {
    CeilLog2(n) + 1
  }

  // ---------------------------------------------------------------------
  // The sentinel lists

  /** A node of an adjacency list: the other end and the edge. */
  datatype Slot = Slot(vertex: nat, edge: nat)

  /** `add(v, edge)` on the sentinel: the new node goes just before the
      sentinel, that is at the end of the list. */
  function Push(l: seq<Slot>, s: Slot): seq<Slot>
  {
    l + [s]
  }

  /** `remove()` of the nodes of edge `e`: their neighbours are joined. */
  function Unlink(l: seq<Slot>, e: nat): (r: seq<Slot>)
    ensures forall s :: s in r <==> s in l && s.edge != e
    ensures |r| <= |l|
  {
    if l == [] then []
    else if l[0].edge == e then Unlink(l[1..], e)
    else [l[0]] + Unlink(l[1..], e)
  }

  /** No edge has two nodes in the list. */
  ghost predicate DistinctEdges(l: seq<Slot>)
  {
    forall a, b | 0 <= a < b < |l| :: l[a].edge != l[b].edge
  }

  lemma {:induction false} UnlinkAbsent(l: seq<Slot>, e: nat)
    requires forall s | s in l :: s.edge != e
    ensures Unlink(l, e) == l
  {
    if l != [] {
      assert l[0] in l;
      assert forall s | s in l[1..] :: s in l;
      UnlinkAbsent(l[1..], e);
      assert l == [l[0]] + l[1..];
    }
  }

  /** Unlinking the node just added gives the list back. */
  lemma UnlinkPush(l: seq<Slot>, s: Slot)
    requires forall x | x in l :: x.edge != s.edge
    ensures Unlink(Push(l, s), s.edge) == l
  {
    var p := Push(l, s);
    if l == [] {
      assert p[1..] == [];
    } else {
      assert p[1..] == Push(l[1..], s);
      assert l[0] in l;
      assert forall x | x in l[1..] :: x in l;
      UnlinkPush(l[1..], s);
      assert l == [l[0]] + l[1..];
    }
  }

  /** The tail of a list of distinct edges has distinct edges, none of
      them the edge of the head. */
  lemma DistinctTail(l: seq<Slot>)
    requires DistinctEdges(l) && l != []
    ensures DistinctEdges(l[1..]) && forall s | s in l[1..] :: s.edge != l[0].edge
  {
    var t := l[1..];
    forall a, b | 0 <= a < b < |t|
      ensures t[a].edge != t[b].edge
    {
      assert t[a] == l[a + 1] && t[b] == l[b + 1];
    }
    forall s | s in t
      ensures s.edge != l[0].edge
    {
      var i :| 0 <= i < |t| && t[i] == s;
      assert l[i + 1] == s;
    }
  }

  lemma DistinctCons(s: Slot, t: seq<Slot>)
    requires DistinctEdges(t) && forall x | x in t :: x.edge != s.edge
    ensures DistinctEdges([s] + t)
  {
    var r := [s] + t;
    forall a, b | 0 <= a < b < |r|
      ensures r[a].edge != r[b].edge
    {
      assert r[b] == t[b - 1];
      if a == 0 {
        assert t[b - 1] in t;
      } else {
        assert r[a] == t[a - 1];
      }
    }
  }

  /** Unlinking the one node of edge `e`, at place `p`, keeps every other
      node, in order. */
  lemma {:induction false} UnlinkOne(l: seq<Slot>, e: nat, p: int)
    requires DistinctEdges(l) && 0 <= p < |l| && l[p].edge == e
    ensures Unlink(l, e) == l[..p] + l[p + 1..]
  {
    DistinctTail(l);
    var t := l[1..];
    if p == 0 {
      UnlinkAbsent(t, e);
    } else {
      UnlinkOne(t, e, p - 1);
      assert l[..p] == [l[0]] + t[..p - 1];
      assert l[p + 1..] == t[p..];
    }
  }

  lemma {:induction false} UnlinkDistinct(l: seq<Slot>, e: nat)
    requires DistinctEdges(l)
    ensures DistinctEdges(Unlink(l, e))
  {
    if l != [] {
      DistinctTail(l);
      UnlinkDistinct(l[1..], e);
      if l[0].edge != e {
        DistinctCons(l[0], Unlink(l[1..], e));
      }
    }
  }

  lemma PushDistinct(l: seq<Slot>, s: Slot)
    requires DistinctEdges(l) && forall x | x in l :: x.edge != s.edge
    ensures DistinctEdges(Push(l, s))
  {
    var p := Push(l, s);
    forall a, b | 0 <= a < b < |p|
      ensures p[a].edge != p[b].edge
    {
      assert p[a] == l[a];
      if b == |l| {
        assert l[a] in l;
      } else {
        assert p[b] == l[b];
      }
    }
  }

  /** `subscribe`: the nodes of edge `id` are added to the lists of `x`
      (naming `y`) and of `y` (naming `x`) at level `j`. */
  function Subscribe(adj: seq<seq<seq<Slot>>>, j: nat, x: nat, y: nat, id: nat): seq<seq<seq<Slot>>>
    requires j < |adj| && x < |adj[j]| && y < |adj[j]|
  {
    var row := adj[j][x := Push(adj[j][x], Slot(y, id))];
    adj[j := row[y := Push(row[y], Slot(x, id))]]
  }

  /** A node stays in its list when another edge subscribes. */
  lemma SubscribeKeeps(adj: seq<seq<seq<Slot>>>, j: nat, x: nat, y: nat, id: nat, j': nat, x': nat, s: Slot)
    requires j < |adj| && x < |adj[j]| && y < |adj[j]| && j' < |adj| && x' < |adj[j']| && s in adj[j'][x']
    ensures s in Subscribe(adj, j, x, y, id)[j'][x']
  {
  }

  /** `removeLinks`: the nodes of edge `id` leave the lists of `a` and `b`
      at level `j`. */
  function Unsubscribe(adj: seq<seq<seq<Slot>>>, j: nat, a: nat, b: nat, id: nat): seq<seq<seq<Slot>>>
    requires j < |adj| && a < |adj[j]| && b < |adj[j]|
  {
    var row := adj[j][a := Unlink(adj[j][a], id)];
    adj[j := row[b := Unlink(row[b], id)]]
  }

  // ---------------------------------------------------------------------
  // The records and the invariant

  /** An `Edge` record: its level, its two ends, the owners of the lists
      that hold its two nodes, and its handles, one per level from the top
      down to its own when it is a tree edge, none otherwise. */
  datatype Edge = Edge(lvl: nat, v: nat, u: nat, firstLink: nat, secondLink: nat, treeEdges: seq<(nat, nat)>)

  /** One level: the tree edges of its forest by handle (their two ends)
      and each handle's mate, as the forest has them; then, kept by the
      graph, the handle and mate of each record that is a tree edge there,
      and the record of each handle. */
  datatype Level = Level(
    ends: map<nat, (nat, nat)>, links: map<nat, nat>,
    handles: map<nat, (nat, nat)>, owners: map<nat, nat>)

  /** The tree edge of handle `h` is a bridge of the forest of its level:
      without it, its two ends are not connected. */
  ghost predicate Bridge(F: Level, h: nat)
  {
    h in F.ends && !Reach(EdgeSet(F.ends - {h}), F.ends[h].0, F.ends[h].1)
  }

  /** The handle and mate `h` stand, in forest `F`, for the tree edge
      between the ends of `e`. */
  ghost predicate Held(F: Level, h: (nat, nat), e: Edge)
  {
    h.0 in F.links && F.links[h.0] == h.1 && h.0 in F.ends && F.ends[h.0] == (e.v, e.u)
  }

  /** A record of a graph of `n` vertices and `size` levels. */
  ghost predicate RecordOk(n: nat, size: nat, e: Edge)
  {
    && e.v < n && e.u < n && e.v != e.u && e.lvl < size
    && ((e.firstLink == e.v && e.secondLink == e.u) || (e.firstLink == e.u && e.secondLink == e.v))
  }

  ghost predicate Records(n: nat, size: nat, edges: map<nat, Edge>)
  {
    forall id {:trigger RecordOk(n, size, edges[id])} | id in edges :: RecordOk(n, size, edges[id])
  }

  /** Level `j`: each handle is a tree edge between the ends of its
      record, a live record of level `j` or below, and every tree edge is
      the handle of its owner. */
  ghost predicate LevelOk(F: Level, j: nat, edges: map<nat, Edge>)
  {
    && (forall id | id in F.handles ::
          && id in edges && edges[id].lvl <= j && Held(F, F.handles[id], edges[id])
          && F.handles[id].0 in F.owners && F.owners[F.handles[id].0] == id)
    && (forall h | h in F.ends :: h in F.owners && F.owners[h] in F.handles && F.handles[F.owners[h]].0 == h)
  }

  ghost predicate Levels(V: seq<Level>, edges: map<nat, Edge>)
  {
    forall j {:trigger LevelOk(V[j], j, edges)} | 0 <= j < |V| :: LevelOk(V[j], j, edges)
  }

  /** A record is a tree edge at the top level. */
  ghost predicate IsTree(V: seq<Level>, id: nat)
  {
    |V| >= 1 && id in V[|V| - 1].handles
  }

  /** A tree edge has its handles at every level from its own up to the
      top, any other record none. */
  ghost predicate Complete(V: seq<Level>, edges: map<nat, Edge>)
  {
    forall j, id | 0 <= j < |V| && id in edges && edges[id].lvl <= j :: id in V[j].handles <==> IsTree(V, id)
  }

  /** A node of the list of `x` at level `j` is of a live edge of level
      `j` with end `x`, and names its other end. */
  ghost predicate SlotOk(edges: map<nat, Edge>, j: nat, x: nat, s: Slot)
  {
    && s.edge in edges && edges[s.edge].lvl == j
    && ((x == edges[s.edge].v && s.vertex == edges[s.edge].u) || (x == edges[s.edge].u && s.vertex == edges[s.edge].v))
  }

  /** Record `e`, number `id`, has its two nodes in the lists of its ends
      at its level, each naming the other end. */
  ghost predicate Subscribed(adj: seq<seq<seq<Slot>>>, id: nat, e: Edge)
  {
    && e.lvl < |adj| && e.v < |adj[e.lvl]| && e.u < |adj[e.lvl]|
    && Slot(e.u, id) in adj[e.lvl][e.v] && Slot(e.v, id) in adj[e.lvl][e.u]
  }

  /** One list per level and vertex, of nodes of distinct live edges,
      and every live edge in the lists of both of its ends. */
  ghost predicate Listed(n: nat, size: nat, adj: seq<seq<seq<Slot>>>, edges: map<nat, Edge>)
  {
    && |adj| == size
    && (forall j | 0 <= j < size :: |adj[j]| == n)
    && (forall j, x, i {:trigger SlotOk(edges, j, x, adj[j][x][i])} | 0 <= j < size && 0 <= x < n && 0 <= i < |adj[j][x]| ::
          SlotOk(edges, j, x, adj[j][x][i]))
    && (forall j, x {:trigger DistinctEdges(adj[j][x])} | 0 <= j < size && 0 <= x < n :: DistinctEdges(adj[j][x]))
    && (forall id {:trigger Subscribed(adj, id, edges[id])} | id in edges :: Subscribed(adj, id, edges[id]))
  }

  /** All of the invariant but `Complete`, which the steps of an operation
      break for a while. */
  ghost predicate Core(n: nat, V: seq<Level>, adj: seq<seq<seq<Slot>>>, edges: map<nat, Edge>)
  {
    |V| >= 1 && Records(n, |V|, edges) && Levels(V, edges) && Listed(n, |V|, adj, edges)
  }

  ghost predicate Good(n: nat, V: seq<Level>, adj: seq<seq<seq<Slot>>>, edges: map<nat, Edge>)
  {
    Core(n, V, adj, edges) && Complete(V, edges)
  }

  /** The edges of the graph. */
  ghost function Pairs(edges: map<nat, Edge>): set<(nat, nat)>
  {
    set id | id in edges :: (edges[id].v, edges[id].u)
  }

  /** A graph of no edges: empty forests and empty lists. */
  lemma EmptyGood(n: nat, size: nat)
    requires size >= 1
    ensures Good(n, seq(size, _ => Level(map[], map[], map[], map[])), seq(size, _ => seq(n, _ => [])), map[])
  {
  }

  /** With no edges, every vertex is connected to itself alone. */
  lemma NoEdges(v: nat, u: nat)
    ensures Reach({}, v, u) <==> v == u
  {
    if v == u {
      ReachRefl({}, v);
    } else if Reach({}, v, u) {
      Unreachable({}, {v}, {u}, v, u);
    }
  }

  // ---------------------------------------------------------------------
  // What the invariant gives

  lemma LevelAt(V: seq<Level>, edges: map<nat, Edge>, j: nat)
    requires Levels(V, edges) && j < |V|
    ensures LevelOk(V[j], j, edges)
  {
  }

  /** A tree edge has its handle at level `j`, at or above its own. */
  lemma CompleteAt(V: seq<Level>, edges: map<nat, Edge>, j: nat, id: nat)
    requires Complete(V, edges) && j < |V| && id in edges && edges[id].lvl <= j
    ensures id in V[j].handles <==> IsTree(V, id)
  {
  }

  /** The tree edges of a level are tree edges of every level above. */
  lemma Nested(V: seq<Level>, edges: map<nat, Edge>, j1: nat, j2: nat)
    requires Levels(V, edges) && Complete(V, edges) && j1 <= j2 < |V|
    ensures EdgeSet(V[j1].ends) <= EdgeSet(V[j2].ends)
  {
    forall p | p in EdgeSet(V[j1].ends)
      ensures p in EdgeSet(V[j2].ends)
    {
      var h :| h in V[j1].ends && V[j1].ends[h] == p;
      LevelAt(V, edges, j1);
      var id := V[j1].owners[h];
      assert Held(V[j1], V[j1].handles[id], edges[id]);
      CompleteAt(V, edges, j1, id);
      CompleteAt(V, edges, j2, id);
      LevelAt(V, edges, j2);
      assert Held(V[j2], V[j2].handles[id], edges[id]);
      assert V[j2].ends[V[j2].handles[id].0] == p;
    }
  }

  /** Whatever the forest of a level connects is connected by every level
      above. */
  lemma NestedReach(n: nat, V: seq<Level>, adj: seq<seq<seq<Slot>>>, edges: map<nat, Edge>, j1: nat, j2: nat, x: nat, y: nat)
    requires Good(n, V, adj, edges) && j1 <= j2 < |V| && Reach(EdgeSet(V[j1].ends), x, y)
    ensures Reach(EdgeSet(V[j2].ends), x, y)
  {
    Nested(V, edges, j1, j2);
    ReachMono(EdgeSet(V[j1].ends), EdgeSet(V[j2].ends), x, y);
  }

  /** The tree edges of the top level. */
  ghost function TopEdges(V: seq<Level>): set<(nat, nat)>
  {
    if |V| == 0 then {} else EdgeSet(V[|V| - 1].ends)
  }

  /** Levels that agree at the top have the same top forest. */
  lemma TopSame(V0: seq<Level>, V: seq<Level>)
    requires |V| == |V0| >= 1 && V[|V| - 1] == V0[|V0| - 1]
    ensures TopEdges(V) == TopEdges(V0)
  {
  }

  /** The tree edges of the top level are edges of the graph. */
  lemma TopInGraph(n: nat, V: seq<Level>, adj: seq<seq<seq<Slot>>>, edges: map<nat, Edge>)
    requires Core(n, V, adj, edges)
    ensures TopEdges(V) <= Pairs(edges)
  {
    var top := |V| - 1;
    assert LevelOk(V[top], top, edges);
    forall p | p in EdgeSet(V[top].ends)
      ensures p in Pairs(edges)
    {
      var h :| h in V[top].ends && V[top].ends[h] == p;
      var id := V[top].owners[h];
      assert Held(V[top], V[top].handles[id], edges[id]);
    }
  }

  /** What the top forest connects, the graph connects. */
  lemma TopReach(n: nat, V: seq<Level>, adj: seq<seq<seq<Slot>>>, edges: map<nat, Edge>, x: nat, y: nat)
    requires Core(n, V, adj, edges) && Reach(TopEdges(V), x, y)
    ensures Reach(Pairs(edges), x, y)
  {
    TopInGraph(n, V, adj, edges);
    ReachMono(TopEdges(V), Pairs(edges), x, y);
  }

  /** A tree edge of level `j - 1` is one of level `j` other than the
      handle of record `id`, whose level is `j`. */
  lemma LowerEdge(V: seq<Level>, edges: map<nat, Edge>, id: nat, j: nat, h': nat)
    requires Levels(V, edges) && Complete(V, edges) && 1 <= j < |V|
    requires id in edges && edges[id].lvl == j && id in V[j].handles && h' in V[j - 1].ends
    ensures V[j - 1].ends[h'] in EdgeSet(V[j].ends - {V[j].handles[id].0})
  {
    var F := V[j];
    var G := V[j - 1];
    LevelAt(V, edges, j);
    LevelAt(V, edges, j - 1);
    var id' := G.owners[h'];
    assert Held(G, G.handles[id'], edges[id']);
    CompleteAt(V, edges, j - 1, id');
    CompleteAt(V, edges, j, id');
    var h2 := F.handles[id'].0;
    assert Held(F, F.handles[id'], edges[id']);
    assert (F.ends - {F.handles[id].0})[h2] == G.ends[h'];
  }

  /** `downgrade` may link: the ends of a tree edge of level `l >= 1` are
      not connected by the forest of level `l - 1`, whose tree edges are
      those of level `l` but itself. */
  lemma Lower(V: seq<Level>, edges: map<nat, Edge>, id: nat)
    requires Levels(V, edges) && Complete(V, edges) && id in edges && 1 <= edges[id].lvl < |V|
    requires id in V[edges[id].lvl].handles && Bridge(V[edges[id].lvl], V[edges[id].lvl].handles[id].0)
    ensures !Reach(EdgeSet(V[edges[id].lvl - 1].ends), edges[id].v, edges[id].u)
  {
    var e := edges[id];
    var j := e.lvl;
    var F := V[j];
    LevelAt(V, edges, j);
    var h := F.handles[id].0;
    assert Held(F, F.handles[id], e);
    var E := EdgeSet(F.ends - {h});
    var G := V[j - 1];
    forall p | p in EdgeSet(G.ends)
      ensures p in E
    {
      var h' :| h' in G.ends && G.ends[h'] == p;
      LowerEdge(V, edges, id, j, h');
    }
    if Reach(EdgeSet(G.ends), e.v, e.u) {
      ReachMono(EdgeSet(G.ends), E, e.v, e.u);
    }
  }

  // ---------------------------------------------------------------------
  // The steps keep the invariant

  /** Level `F` with the tree edge of handle `hnd`, between the ends `p`,
      added for record `id`. */
  function Added(F: Level, id: nat, hnd: (nat, nat), p: (nat, nat)): Level
  {
    Level(F.ends[hnd.0 := p], F.links[hnd.0 := hnd.1], F.handles[id := hnd], F.owners[hnd.0 := id])
  }

  /** Level `F` without the tree edge that is the handle of record `id`. */
  function Removed(F: Level, id: nat): Level
    requires id in F.handles
  {
    var h := F.handles[id].0;
    Level(F.ends - {h}, F.links - {h}, F.handles - {id}, F.owners - {h})
  }

  /** Record `id` gains at level `j` the handle `hnd` of a new tree edge
      between its ends. */
  lemma Extend(n: nat, V: seq<Level>, adj: seq<seq<seq<Slot>>>, edges: map<nat, Edge>, id: nat, j: nat, hnd: (nat, nat))
    requires Core(n, V, adj, edges) && id in edges && edges[id].lvl <= j < |V|
    requires id !in V[j].handles && hnd.0 !in V[j].ends
    ensures Core(n, V[j := Added(V[j], id, hnd, (edges[id].v, edges[id].u))], adj, edges)
  {
    var F := V[j];
    var F' := Added(F, id, hnd, (edges[id].v, edges[id].u));
    assert LevelOk(F, j, edges);
    forall id2 | id2 in F'.handles
      ensures id2 in edges && edges[id2].lvl <= j && Held(F', F'.handles[id2], edges[id2])
      ensures F'.handles[id2].0 in F'.owners && F'.owners[F'.handles[id2].0] == id2
    {
      if id2 != id {
        assert Held(F, F.handles[id2], edges[id2]);
      }
    }
    assert LevelOk(F', j, edges);
    var V' := V[j := F'];
    forall j' | 0 <= j' < |V'|
      ensures LevelOk(V'[j'], j', edges)
    {
      if j' != j {
        assert LevelOk(V[j'], j', edges);
      }
    }
  }

  /** Record `id` loses at level `j` its handle, whose tree edge is cut. */
  lemma Shrink(n: nat, V: seq<Level>, adj: seq<seq<seq<Slot>>>, edges: map<nat, Edge>, id: nat, j: nat)
    requires Core(n, V, adj, edges) && j < |V| && id in V[j].handles
    ensures Core(n, V[j := Removed(V[j], id)], adj, edges)
  {
    var F := V[j];
    var F' := Removed(F, id);
    var h := F.handles[id].0;
    assert LevelOk(F, j, edges);
    forall id2 | id2 in F'.handles
      ensures id2 in edges && edges[id2].lvl <= j && Held(F', F'.handles[id2], edges[id2])
      ensures F'.handles[id2].0 in F'.owners && F'.owners[F'.handles[id2].0] == id2
    {
      assert Held(F, F.handles[id2], edges[id2]);
      assert F.handles[id2].0 != h;
    }
    assert LevelOk(F', j, edges);
    var V' := V[j := F'];
    forall j' | 0 <= j' < |V'|
      ensures LevelOk(V'[j'], j', edges)
    {
      if j' != j {
        assert LevelOk(V[j'], j', edges);
      }
    }
  }

  /** The forests stay as they are while the records change: every
      record with a handle stays, with the same ends, at the same level or
      below. */
  lemma KeepLevels(V: seq<Level>, edges: map<nat, Edge>, edges': map<nat, Edge>)
    requires Levels(V, edges)
    requires forall id | id in edges && id !in edges' :: forall j | 0 <= j < |V| :: id !in V[j].handles
    requires forall id | id in edges && id in edges' ::
      edges'[id].lvl <= edges[id].lvl && edges'[id].v == edges[id].v && edges'[id].u == edges[id].u
    ensures Levels(V, edges')
  {
    forall j | 0 <= j < |V|
      ensures LevelOk(V[j], j, edges')
    {
      LevelAt(V, edges, j);
      forall id2 | id2 in V[j].handles
        ensures edges'[id2].lvl <= j && Held(V[j], V[j].handles[id2], edges'[id2])
      {
        assert Held(V[j], V[j].handles[id2], edges[id2]);
      }
    }
  }

  /** A new record at the top level, with no handle yet, whose nodes join
      the lists of its ends. */
  lemma NewRecord(n: nat, V: seq<Level>, adj: seq<seq<seq<Slot>>>, edges: map<nat, Edge>, id: nat, e: Edge)
    requires Core(n, V, adj, edges) && id !in edges
    requires e.lvl == |V| - 1 && e.v < n && e.u < n && e.v != e.u && e.firstLink == e.v && e.secondLink == e.u
    ensures Core(n, V, Subscribe(adj, |V| - 1, e.v, e.u, id), edges[id := e])
  {
    NewRecordLists(n, |V|, adj, edges, id, e);
    KeepLevels(V, edges, edges[id := e]);
  }

  lemma NewRecordLists(n: nat, size: nat, adj: seq<seq<seq<Slot>>>, edges: map<nat, Edge>, id: nat, e: Edge)
    requires Listed(n, size, adj, edges) && id !in edges
    requires e.lvl == size - 1 && e.v < n && e.u < n && e.v != e.u
    ensures Listed(n, size, Subscribe(adj, size - 1, e.v, e.u, id), edges[id := e])
  {
    var top := size - 1;
    var adj' := Subscribe(adj, top, e.v, e.u, id);
    var edges' := edges[id := e];
    forall j, x, i | 0 <= j < size && 0 <= x < n && 0 <= i < |adj'[j][x]|
      ensures SlotOk(edges', j, x, adj'[j][x][i])
    {
      if j == top && (x == e.v || x == e.u) && i == |adj[j][x]| {
      } else {
        assert adj'[j][x][i] == adj[j][x][i];
        assert SlotOk(edges, j, x, adj[j][x][i]);
      }
    }
    forall j, x | 0 <= j < size && 0 <= x < n
      ensures DistinctEdges(adj'[j][x])
    {
      if j == top && (x == e.v || x == e.u) {
        var y := if x == e.v then e.u else e.v;
        forall s: Slot | s in adj[j][x]
          ensures s.edge != id
        {
          var i :| 0 <= i < |adj[j][x]| && adj[j][x][i] == s;
          assert SlotOk(edges, j, x, adj[j][x][i]);
        }
        PushDistinct(adj[j][x], Slot(y, id));
      }
    }
    forall id2 | id2 in edges'
      ensures Subscribed(adj', id2, edges'[id2])
    {
      if id2 != id {
        var e2 := edges[id2];
        assert Subscribed(adj, id2, e2);
        SubscribeKeeps(adj, top, e.v, e.u, id, e2.lvl, e2.v, Slot(e2.u, id2));
        SubscribeKeeps(adj, top, e.v, e.u, id, e2.lvl, e2.u, Slot(e2.v, id2));
      }
    }
  }

  /** After `removeLinks` of edge `id`, every node left is of another
      edge, and the lists keep their shape and their distinct edges. */
  lemma UnsubscribeListed(n: nat, size: nat, adj: seq<seq<seq<Slot>>>, edges: map<nat, Edge>, id: nat)
    requires Listed(n, size, adj, edges) && id in edges && RecordOk(n, size, edges[id])
    ensures var e := edges[id]; var mid: seq<seq<seq<Slot>>> := Unsubscribe(adj, e.lvl, e.firstLink, e.secondLink, id);
      && |mid| == size && (forall j | 0 <= j < size :: |mid[j]| == n)
      && (forall j, x, i | 0 <= j < size && 0 <= x < n && 0 <= i < |mid[j][x]| :: SlotOk(edges, j, x, mid[j][x][i]) && mid[j][x][i].edge != id)
      && (forall j, x | 0 <= j < size && 0 <= x < n :: DistinctEdges(mid[j][x]))
      && (forall id2 | id2 in edges && id2 != id :: Subscribed(mid, id2, edges[id2]))
  {
    var e := edges[id];
    var mid: seq<seq<seq<Slot>>> := Unsubscribe(adj, e.lvl, e.firstLink, e.secondLink, id);
    forall j, x, i | 0 <= j < size && 0 <= x < n && 0 <= i < |mid[j][x]|
      ensures SlotOk(edges, j, x, mid[j][x][i]) && mid[j][x][i].edge != id
    {
      var s := mid[j][x][i];
      if j == e.lvl && (x == e.firstLink || x == e.secondLink) {
        assert s in mid[j][x];
        assert s in adj[j][x] && s.edge != id;
        var i' :| 0 <= i' < |adj[j][x]| && adj[j][x][i'] == s;
        assert SlotOk(edges, j, x, adj[j][x][i']);
      } else {
        assert s == adj[j][x][i];
        assert SlotOk(edges, j, x, adj[j][x][i]);
      }
    }
    forall j, x | 0 <= j < size && 0 <= x < n
      ensures DistinctEdges(mid[j][x])
    {
      if j == e.lvl && x == e.firstLink {
        UnlinkDistinct(adj[j][x], id);
      } else if j == e.lvl && x == e.secondLink {
        UnlinkDistinct(adj[j][x], id);
      }
    }
    forall id2 | id2 in edges && id2 != id
      ensures Subscribed(mid, id2, edges[id2])
    {
      var e2 := edges[id2];
      assert Subscribed(adj, id2, e2);
      UnsubscribeKeeps(adj, e.lvl, e.firstLink, e.secondLink, id, e2.lvl, e2.v, Slot(e2.u, id2));
      UnsubscribeKeeps(adj, e.lvl, e.firstLink, e.secondLink, id, e2.lvl, e2.u, Slot(e2.v, id2));
    }
  }

  /** A node of another edge stays in its list when an edge is unlinked. */
  lemma UnsubscribeKeeps(adj: seq<seq<seq<Slot>>>, j: nat, a: nat, b: nat, id: nat, j': nat, x': nat, s: Slot)
    requires j < |adj| && a < |adj[j]| && b < |adj[j]| && j' < |adj| && x' < |adj[j']| && s in adj[j'][x'] && s.edge != id
    ensures s in Unsubscribe(adj, j, a, b, id)[j'][x']
  {
  }

  /** `downgrade` on the lists: the nodes of edge `id` leave the lists
      of its ends at its level and join those one level down. */
  lemma RelevelLists(n: nat, size: nat, adj: seq<seq<seq<Slot>>>, edges: map<nat, Edge>, id: nat)
    requires Listed(n, size, adj, edges) && id in edges && RecordOk(n, size, edges[id]) && edges[id].lvl >= 1
    ensures var e := edges[id];
      Listed(n, size, Subscribe(Unsubscribe(adj, e.lvl, e.firstLink, e.secondLink, id), e.lvl - 1, e.u, e.v, id),
             edges[id := e.(lvl := e.lvl - 1, firstLink := e.u, secondLink := e.v)])
  {
    var e := edges[id];
    var mid: seq<seq<seq<Slot>>> := Unsubscribe(adj, e.lvl, e.firstLink, e.secondLink, id);
    RelevelSlots(n, size, adj, edges, id);
    assert |mid| == size && (forall j | 0 <= j < size :: |mid[j]| == n)
      && forall id2 | id2 in edges && id2 != id :: Subscribed(mid, id2, edges[id2])
    by {
      UnsubscribeListed(n, size, adj, edges, id);
    }
    RelevelSubscribed(n, size, mid, edges, id);
  }

  /** After `downgrade` of edge `id`, the lists keep their shape, every
      node fits its record (the two new ones name the new level and the
      ends of `id`) and the edges of each list stay distinct. */
  lemma RelevelSlots(n: nat, size: nat, adj: seq<seq<seq<Slot>>>, edges: map<nat, Edge>, id: nat)
    requires Listed(n, size, adj, edges) && id in edges && RecordOk(n, size, edges[id]) && edges[id].lvl >= 1
    ensures var e := edges[id]; var edges' := edges[id := e.(lvl := e.lvl - 1, firstLink := e.u, secondLink := e.v)];
      var adj' := Subscribe(Unsubscribe(adj, e.lvl, e.firstLink, e.secondLink, id), e.lvl - 1, e.u, e.v, id);
      && |adj'| == size && (forall j | 0 <= j < size :: |adj'[j]| == n)
      && (forall j, x, i | 0 <= j < size && 0 <= x < n && 0 <= i < |adj'[j][x]| :: SlotOk(edges', j, x, adj'[j][x][i]))
      && (forall j, x | 0 <= j < size && 0 <= x < n :: DistinctEdges(adj'[j][x]))
  {
    var e := edges[id];
    var edges' := edges[id := e.(lvl := e.lvl - 1, firstLink := e.u, secondLink := e.v)];
    var mid: seq<seq<seq<Slot>>> := Unsubscribe(adj, e.lvl, e.firstLink, e.secondLink, id);
    var adj' := Subscribe(mid, e.lvl - 1, e.u, e.v, id);
    UnsubscribeListed(n, size, adj, edges, id);
    forall j, x, i | 0 <= j < size && 0 <= x < n && 0 <= i < |adj'[j][x]|
      ensures SlotOk(edges', j, x, adj'[j][x][i])
    {
      if j == e.lvl - 1 && (x == e.u || x == e.v) && i == |mid[j][x]| {
      } else {
        assert adj'[j][x][i] == mid[j][x][i];
        assert SlotOk(edges, j, x, mid[j][x][i]) && mid[j][x][i].edge != id;
      }
    }
    RelevelDistinct(n, size, mid, e.lvl - 1, e.u, e.v, id);
  }

  /** Once no list holds a node of edge `id`, pushing its two nodes at
      level `j` keeps the edges of every list distinct. */
  lemma RelevelDistinct(n: nat, size: nat, mid: seq<seq<seq<Slot>>>, j: nat, a: nat, b: nat, id: nat)
    requires |mid| == size && (forall j' | 0 <= j' < size :: |mid[j']| == n) && j < size && a < n && b < n  && a != b
    requires forall j', x, i | 0 <= j' < size && 0 <= x < n && 0 <= i < |mid[j'][x]| :: mid[j'][x][i].edge != id
    requires forall j', x | 0 <= j' < size && 0 <= x < n :: DistinctEdges(mid[j'][x])
    ensures var adj' := Subscribe(mid, j, a, b, id);
      forall j', x | 0 <= j' < size && 0 <= x < n :: DistinctEdges(adj'[j'][x])
  {
    var adj' := Subscribe(mid, j, a, b, id);
    forall j', x | 0 <= j' < size && 0 <= x < n
      ensures DistinctEdges(adj'[j'][x])
    {
      if j' == j && (x == a || x == b) {
        var y := if x == a then b else a;
        forall s: Slot | s in mid[j][x]
          ensures s.edge != id
        {
          var i :| 0 <= i < |mid[j][x]| && mid[j][x][i] == s;
        }
        PushDistinct(mid[j][x], Slot(y, id));
      }
    }
  }

  /** After `downgrade` of edge `id`, every live edge is in the lists of
      both of its ends again. */
  lemma RelevelSubscribed(n: nat, size: nat, mid: seq<seq<seq<Slot>>>, edges: map<nat, Edge>, id: nat)
    requires id in edges && RecordOk(n, size, edges[id]) && edges[id].lvl >= 1
    requires |mid| == size && forall j | 0 <= j < size :: |mid[j]| == n
    requires forall id2 | id2 in edges && id2 != id :: Subscribed(mid, id2, edges[id2])
    ensures var e := edges[id]; var edges' := edges[id := e.(lvl := e.lvl - 1, firstLink := e.u, secondLink := e.v)];
      forall id2 | id2 in edges' :: Subscribed(Subscribe(mid, e.lvl - 1, e.u, e.v, id), id2, edges'[id2])
  {
    var e := edges[id];
    var edges' := edges[id := e.(lvl := e.lvl - 1, firstLink := e.u, secondLink := e.v)];
    forall id2 | id2 in edges'
      ensures Subscribed(Subscribe(mid, e.lvl - 1, e.u, e.v, id), id2, edges'[id2])
    {
      if id2 != id {
        var e2 := edges[id2];
        assert Subscribed(mid, id2, e2);
        SubscribeKeeps(mid, e.lvl - 1, e.u, e.v, id, e2.lvl, e2.v, Slot(e2.u, id2));
        SubscribeKeeps(mid, e.lvl - 1, e.u, e.v, id, e2.lvl, e2.u, Slot(e2.v, id2));
      }
    }
  }

  /** `downgrade` on the lists and the record: edge `id` moves one level
      down, its nodes leave the lists of its ends at its old level and
      join those at the new one. */
  lemma Relevel(n: nat, V: seq<Level>, adj: seq<seq<seq<Slot>>>, edges: map<nat, Edge>, id: nat)
    requires Core(n, V, adj, edges) && id in edges && RecordOk(n, |V|, edges[id]) && edges[id].lvl >= 1
    ensures var e := edges[id];
      Core(n, V, Subscribe(Unsubscribe(adj, e.lvl, e.firstLink, e.secondLink, id), e.lvl - 1, e.u, e.v, id),
           edges[id := e.(lvl := e.lvl - 1, firstLink := e.u, secondLink := e.v)])
  {
    var e := edges[id];
    var edges' := edges[id := e.(lvl := e.lvl - 1, firstLink := e.u, secondLink := e.v)];
    RelevelLists(n, |V|, adj, edges, id);
    KeepLevels(V, edges, edges');
  }

  /** `remove` once the tree edges of edge `id` are cut: its nodes are
      unlinked and its record dropped. */
  lemma Unlist(n: nat, V: seq<Level>, adj: seq<seq<seq<Slot>>>, edges: map<nat, Edge>, id: nat)
    requires Core(n, V, adj, edges) && id in edges && RecordOk(n, |V|, edges[id])
    requires forall j | 0 <= j < |V| :: id !in V[j].handles
    ensures var e := edges[id];
      Core(n, V, Unsubscribe(adj, e.lvl, e.firstLink, e.secondLink, id), edges - {id})
  {
    var e := edges[id];
    var edges' := edges - {id};
    var mid: seq<seq<seq<Slot>>> := Unsubscribe(adj, e.lvl, e.firstLink, e.secondLink, id);
    UnsubscribeListed(n, |V|, adj, edges, id);
    forall j, x, i | 0 <= j < |V| && 0 <= x < n && 0 <= i < |mid[j][x]|
      ensures SlotOk(edges', j, x, mid[j][x][i])
    {
      assert SlotOk(edges, j, x, mid[j][x][i]) && mid[j][x][i].edge != id;
    }
    forall id2 | id2 in edges'
      ensures Subscribed(mid, id2, edges'[id2])
    {
    }
    KeepLevels(V, edges, edges');
  }

  /** The handle objects a record keeps are no part of the invariant. */
  lemma Retag(n: nat, V: seq<Level>, adj: seq<seq<seq<Slot>>>, edges: map<nat, Edge>, id: nat, tes: seq<(nat, nat)>)
    requires id in edges
    ensures Core(n, V, adj, edges) ==> Core(n, V, adj, edges[id := edges[id].(treeEdges := tes)])
    ensures Complete(V, edges) ==> Complete(V, edges[id := edges[id].(treeEdges := tes)])
  {
    var edges' := edges[id := edges[id].(treeEdges := tes)];
    if Core(n, V, adj, edges) {
      KeepLevels(V, edges, edges');
      forall id2 | id2 in edges'
        ensures RecordOk(n, |V|, edges'[id2])
      {
        assert RecordOk(n, |V|, edges[id2]);
      }
      forall j, x, i | 0 <= j < |V| && 0 <= x < n && 0 <= i < |adj[j][x]|
        ensures SlotOk(edges', j, x, adj[j][x][i])
      {
        assert SlotOk(edges, j, x, adj[j][x][i]);
      }
      forall id2 | id2 in edges'
        ensures Subscribed(adj, id2, edges'[id2])
      {
        assert Subscribed(adj, id2, edges[id2]);
      }
    }
    if Complete(V, edges) {
      forall j, id2 | 0 <= j < |V| && id2 in edges' && edges'[id2].lvl <= j
        ensures id2 in V[j].handles <==> IsTree(V, id2)
      {
        CompleteAt(V, edges, j, id2);
      }
    }
  }

  // ---------------------------------------------------------------------
  // Completeness across the steps

  /** `Complete` survives a step that changes record `id` only, when the
      levels of the others and their handles are as before and `id` has
      its handles at all of the levels from its own to the top or none. */
  lemma CompleteFrom(V0: seq<Level>, V: seq<Level>, edges0: map<nat, Edge>, edges: map<nat, Edge>, id: nat)
    requires Complete(V0, edges0) && |V| == |V0| >= 1
    requires forall id2 | id2 in edges && id2 != id :: id2 in edges0 && edges0[id2].lvl == edges[id2].lvl
    requires forall j, id2 | 0 <= j < |V| && id2 != id :: id2 in V[j].handles <==> id2 in V0[j].handles
    requires id in edges ==> forall j | edges[id].lvl <= j < |V| :: id in V[j].handles <==> IsTree(V, id)
    ensures Complete(V, edges)
  {
    forall j, id2 | 0 <= j < |V| && id2 in edges && edges[id2].lvl <= j
      ensures id2 in V[j].handles <==> IsTree(V, id2)
    {
      if id2 != id {
        CompleteAt(V0, edges0, j, id2);
      }
    }
  }

  /** `add`: a new record at the top, a tree edge there or not. */
  lemma CompleteAdd(V: seq<Level>, edges: map<nat, Edge>, id: nat, e: Edge, linked: bool, hnd: (nat, nat))
    requires Complete(V, edges) && |V| >= 1 && e.lvl == |V| - 1 && id !in V[|V| - 1].handles
    requires forall id2 | id2 in edges :: id2 != id
    ensures var top := |V| - 1;
      Complete(if linked then V[top := Added(V[top], id, hnd, (e.v, e.u))] else V, edges[id := e])
  {
    var top := |V| - 1;
    var V' := if linked then V[top := Added(V[top], id, hnd, (e.v, e.u))] else V;
    CompleteFrom(V, V', edges, edges[id := e], id);
  }

  /** `downgrade`: record `id` one level down, a tree edge gaining its
      handle there or a non-tree edge none. */
  lemma CompleteDown(V: seq<Level>, edges: map<nat, Edge>, id: nat, hnd: (nat, nat))
    requires Complete(V, edges) && id in edges && 1 <= edges[id].lvl < |V|
    requires id !in V[edges[id].lvl - 1].handles
    ensures var e := edges[id]; var j := e.lvl - 1;
      Complete(if IsTree(V, id) then V[j := Added(V[j], id, hnd, (e.v, e.u))] else V,
               edges[id := e.(lvl := j, firstLink := e.u, secondLink := e.v)])
  {
    var e := edges[id];
    var j := e.lvl - 1;
    var V' := if IsTree(V, id) then V[j := Added(V[j], id, hnd, (e.v, e.u))] else V;
    var edges' := edges[id := e.(lvl := j, firstLink := e.u, secondLink := e.v)];
    forall j' | j <= j' < |V|
      ensures id in V'[j'].handles <==> IsTree(V', id)
    {
      if j' != j {
        CompleteAt(V, edges, j', id);
      }
    }
    CompleteFrom(V, V', edges, edges', id);
  }

  /** `remove`: the record of `id` dropped, its handles gone. */
  lemma CompleteDrop(V0: seq<Level>, V: seq<Level>, edges: map<nat, Edge>, id: nat)
    requires Complete(V0, edges) && |V| == |V0| >= 1
    requires forall j | 0 <= j < |V| :: V[j].handles == V0[j].handles - {id}
    ensures Complete(V, edges - {id})
  {
    CompleteFrom(V0, V, edges, edges - {id}, id);
  }

  /** `remove` with a replacement: the non-tree edge `id` gains handles at
      every level from its own to the top. */
  lemma CompleteReplace(V0: seq<Level>, V: seq<Level>, edges: map<nat, Edge>, id: nat, hs: seq<(nat, nat)>)
    requires Complete(V0, edges) && |V| == |V0| == |hs| >= 1 && id in edges && edges[id].lvl < |V|
    requires forall j | 0 <= j < |V| :: V[j].handles == if edges[id].lvl <= j then V0[j].handles[id := hs[j]] else V0[j].handles
    ensures Complete(V, edges)
  {
    CompleteFrom(V0, V, edges, edges, id);
  }
}

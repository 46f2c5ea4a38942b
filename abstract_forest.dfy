/**
 * The forest of one level of DynamicGraph.java as the graph uses it: its
 * tree edges by handle (a `Level`), what `link` and `cut` do to them,
 * and the two questions the graph asks, who is connected to whom and how
 * large a tree is. That an EulerTourForest answers them so is proved in
 * LevelForests (LinkIn, CutIn, ConnectedIn, SizeIn, IteratorIn).
 */
module AbstractForest {

  import opened Graph
  import opened ForestTheory
  import opened Levels
  import opened Handles

  /** The tree edges of `F` form a forest: each of them is a bridge. Every
      handle is below `next`, so that `next` and `next + 1` are fresh. */
  ghost predicate Forested(F: Level, next: nat)
  {
    && (forall h | h in F.ends :: h < next)
    && (forall h {:trigger Bridge(F, h)} | h in F.ends :: Bridge(F, h))
    && (forall h | h in F.links :: h < next)
  }

  lemma EdgeSetLess(m: map<nat, (nat, nat)>, h: nat)
    ensures EdgeSet(m - {h}) <= EdgeSet(m)
  {
    forall q | q in EdgeSet(m - {h})
      ensures q in EdgeSet(m)
    {
      var l :| l in m - {h} && (m - {h})[l] == q;
      assert m[l] == q;
    }
  }

  /** Every pair of a subset is an edge of the whole. */
  lemma Within(E: set<(nat, nat)>, F: set<(nat, nat)>)
    requires E <= F
    ensures forall e | e in E :: Adjacent(F, e.0, e.1)
  {
  }

  /** A new edge between two vertices the forest does not connect cannot
      close a cycle through the old bridge `q`: its ends would be
      connected around `q`. */
  lemma StillBridge(E: set<(nat, nat)>, Eh: set<(nat, nat)>, q: (nat, nat), p: (nat, nat))
    requires Eh <= E && q in E && !Reach(Eh, q.0, q.1) && !Reach(E, p.0, p.1)
    ensures !Reach(Eh + {p}, q.0, q.1)
  {
    if Reach(Eh + {p}, q.0, q.1) {
      ReachAdd(Eh, p.0, p.1, q.0, q.1);
      Within(Eh, E);
      if Reach(Eh, q.0, p.0) && Reach(Eh, p.1, q.1) {
        ReachMono(Eh, E, q.0, p.0);
        ReachMono(Eh, E, p.1, q.1);
        ReachSym(E, q.0, p.0);
        ReachStep(E, p.0, q.0, q.1);
        ReachSym(E, p.1, q.1);
        ReachTrans(E, p.0, q.1, p.1);
      } else {
        ReachMono(Eh, E, q.0, p.1);
        ReachMono(Eh, E, p.0, q.1);
        ReachStep(E, p.0, q.1, q.0);
        ReachTrans(E, p.0, q.0, p.1);
      }
      assert false;
    }
  }

  /** `link(x, y)` of two vertices the forest does not connect, under the
      fresh handle `next` and mate `next + 1`, keeps a forest, which gains
      exactly the edge (x, y). */
  lemma LinkForested(F: Level, id: nat, next: nat, p: (nat, nat))
    requires Forested(F, next) && !Reach(EdgeSet(F.ends), p.0, p.1)
    ensures Forested(Added(F, id, (next, next + 1), p), next + 2)
    ensures EdgeSet(Added(F, id, (next, next + 1), p).ends) == EdgeSet(F.ends) + {p}
  {
    var G := Added(F, id, (next, next + 1), p);
    assert next !in F.ends;
    EdgeSetAdd(F.ends, next, p);
    forall h | h in G.ends
      ensures h < next + 2 && Bridge(G, h)
    {
      if h == next {
        assert G.ends - {h} == F.ends;
      } else {
        var q := F.ends[h];
        assert Bridge(F, h);
        assert G.ends - {h} == (F.ends - {h})[next := p];
        assert next !in F.ends - {h};
        EdgeSetAdd(F.ends - {h}, next, p);
        EdgeSetLess(F.ends, h);
        assert q in EdgeSet(F.ends);
        StillBridge(EdgeSet(F.ends), EdgeSet(F.ends - {h}), q, p);
      }
    }
  }

  /** `cut` of the tree edge of record `id` keeps a forest, which loses
      exactly the pair of that edge. */
  lemma CutForested(F: Level, id: nat, next: nat)
    requires Forested(F, next) && id in F.handles && F.handles[id].0 in F.ends
    ensures Forested(Removed(F, id), next)
    ensures EdgeSet(Removed(F, id).ends) == EdgeSet(F.ends) - {F.ends[F.handles[id].0]}
  {
    var h := F.handles[id].0;
    var G := Removed(F, id);
    assert Bridge(F, h);
    EdgeSetCut(F.ends, h);
    forall h' | h' in G.ends
      ensures Bridge(G, h')
    {
      assert Bridge(F, h');
      var q := F.ends[h'];
      assert G.ends - {h'} == (F.ends - {h'}) - {h};
      EdgeSetLess(F.ends - {h'}, h);
      if Reach(EdgeSet(G.ends - {h'}), q.0, q.1) {
        Within(EdgeSet(G.ends - {h'}), EdgeSet(F.ends - {h'}));
        ReachMono(EdgeSet(G.ends - {h'}), EdgeSet(F.ends - {h'}), q.0, q.1);
      }
    }
  }

  /** The vertices the tree edges `m` connect to `v`: a set grown from
      `v` by the far end of a tree edge that leaves it, until none does. */
  method Spread(m: map<nat, (nat, nat)>, v: nat) returns (c: set<nat>)
    ensures forall x :: x in c <==> Reach(EdgeSet(m), v, x)
  {
    var all := {v} + (set h | h in m :: m[h].0) + (set h | h in m :: m[h].1);
    c := {v};
    ReachRefl(EdgeSet(m), v);
    while exists h | h in m :: (m[h].0 in c) != (m[h].1 in c)
      invariant v in c && c <= all
      invariant forall x | x in c :: Reach(EdgeSet(m), v, x)
      decreases |all - c|
    {
      var h :| h in m && (m[h].0 in c) != (m[h].1 in c);
      var a, b := m[h].0, m[h].1;
      assert m[h] in EdgeSet(m);
      var w;
      if a in c {
        ReachStep(EdgeSet(m), v, a, b);
        w := b;
      } else {
        ReachStep(EdgeSet(m), v, b, a);
        w := a;
      }
      assert w in all - c;
      assert all - (c + {w}) == (all - c) - {w};
      c := c + {w};
    }
    forall e | e in EdgeSet(m)
      ensures e.0 in c <==> e.1 in c
    {
      var h :| h in m && m[h] == e;
    }
    ReachStaysIn(EdgeSet(m), c, v);
  }

  /** The length of the tour of a tree of `c` vertices, as `size(v)`
      reports it: 1 for a vertex alone, one occurrence per visit
      otherwise. */
  function TourLength(c: nat): (r: nat)
    ensures c >= 1 ==> r >= 1
  {
    if c <= 1 then 1 else 2 * c - 2
  }
}

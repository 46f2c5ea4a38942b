/**
 * The `treeEdges` lists of the `Edge` records of DynamicGraph.java. A
 * tree edge of level `l` keeps one `TreeEdge` per level from the top down
 * to `l`, each holding the handle and mate that `link` returned at that
 * level; `remove` hands them back to `cut`. Here each is the pair it
 * holds.
 */
module Handles {

  import opened Graph
  import opened ForestTheory
  import opened Levels

  /** `h`, at place `i` of the list of record `id`, is the record's tree
      edge at level `|V| - 1 - i`. */
  ghost predicate HeldAt(V: seq<Level>, id: nat, i: nat, h: (nat, nat))
  {
    i < |V| && id in V[|V| - 1 - i].handles && V[|V| - 1 - i].handles[id] == h
  }

  ghost predicate HeldAll(V: seq<Level>, id: nat, tes: seq<(nat, nat)>)
  {
    forall i | 0 <= i < |tes| :: HeldAt(V, id, i, tes[i])
  }

  /** A tree edge holds its handles from the top level down to its own,
      a non-tree edge none. */
  ghost predicate Holding(V: seq<Level>, id: nat, e: Edge)
  {
    |e.treeEdges| == (if IsTree(V, id) then |V| - e.lvl else 0) && HeldAll(V, id, e.treeEdges)
  }

  ghost predicate Stored(V: seq<Level>, E: map<nat, Edge>)
  {
    forall id {:trigger Holding(V, id, E[id])} | id in E :: Holding(V, id, E[id])
  }

  /** Every record but `id` holds its handles. */
  ghost predicate StoredBut(V: seq<Level>, E: map<nat, Edge>, id: nat)
  {
    forall id2 {:trigger Holding(V, id2, E[id2])} | id2 in E && id2 != id :: Holding(V, id2, E[id2])
  }

  /** The invariant of the graph's values: `Good`, the handles held, and
      every record numbered below the next number. */
  ghost predicate Inv(n: nat, V: seq<Level>, A: seq<seq<seq<Slot>>>, E: map<nat, Edge>, next: nat)
  {
    Good(n, V, A, E) && Stored(V, E) && forall id | id in E :: id < next
  }

  /** A step that leaves the other records and their handles at every
      level as they were keeps them holding. */
  lemma KeepOthers(V: seq<Level>, V': seq<Level>, E: map<nat, Edge>, E': map<nat, Edge>, id: nat)
    requires StoredBut(V, E, id) && |V'| == |V|
    requires forall id2 | id2 in E' && id2 != id :: id2 in E && E'[id2] == E[id2]
    requires forall j, id2 | 0 <= j < |V| && id2 != id :: id2 in V'[j].handles <==> id2 in V[j].handles
    requires forall j, id2 | 0 <= j < |V| && id2 != id && id2 in V[j].handles :: V'[j].handles[id2] == V[j].handles[id2]
    ensures StoredBut(V', E', id)
  {
    forall id2 | id2 in E' && id2 != id
      ensures Holding(V', id2, E'[id2])
    {
      var e := E[id2];
      assert Holding(V, id2, e);
      assert IsTree(V', id2) == IsTree(V, id2);
      forall i | 0 <= i < |e.treeEdges|
        ensures HeldAt(V', id2, i, e.treeEdges[i])
      {
        assert HeldAt(V, id2, i, e.treeEdges[i]);
      }
    }
  }

  // ---------------------------------------------------------------------
  // The steps

  /** `add` keeps `Good`: the new record `id` at the top level, a tree
      edge of handle `hnd` there or not. */
  lemma GoodAdd(n: nat, V: seq<Level>, A: seq<seq<seq<Slot>>>, E: map<nat, Edge>, id: nat, e: Edge, linked: bool, hnd: (nat, nat))
    requires Good(n, V, A, E) && id !in E
    requires e.lvl == |V| - 1 && e.v < n && e.u < n && e.v != e.u && e.firstLink == e.v && e.secondLink == e.u
    requires forall j | 0 <= j < |V| :: id !in V[j].handles
    requires linked ==> hnd.0 !in V[|V| - 1].ends
    ensures var top := |V| - 1;
      Good(n, if linked then V[top := Added(V[top], id, hnd, (e.v, e.u))] else V, Subscribe(A, top, e.v, e.u, id), E[id := e])
  {
    var top := |V| - 1;
    NewRecord(n, V, A, E, id, e);
    if linked {
      Extend(n, V, Subscribe(A, top, e.v, e.u, id), E[id := e], id, top, hnd);
    }
    CompleteAdd(V, E, id, e, linked, hnd);
  }

  /** `add` keeps the handles held: the new record holds its tree edge
      `hnd` at the top level, or nothing. */
  lemma StoredAdd(V: seq<Level>, E: map<nat, Edge>, id: nat, e: Edge, linked: bool, hnd: (nat, nat))
    requires Stored(V, E) && id !in E && e.lvl == |V| - 1
    requires forall j | 0 <= j < |V| :: id !in V[j].handles
    requires linked ==> e.treeEdges == [hnd]
    requires !linked ==> e.treeEdges == []
    ensures var top := |V| - 1;
      Stored(if linked then V[top := Added(V[top], id, hnd, (e.v, e.u))] else V, E[id := e])
  {
    var top := |V| - 1;
    var V' := if linked then V[top := Added(V[top], id, hnd, (e.v, e.u))] else V;
    KeepOthers(V, V', E, E[id := e], id);
    if linked {
      assert HeldAt(V', id, 0, e.treeEdges[0]);
    }
    assert Holding(V', id, e);
  }

  /** `add`: the invariant holds of the new record `id` at the top level,
      a tree edge of handle `hnd` there, or none. */
  lemma InvAdd(n: nat, V: seq<Level>, A: seq<seq<seq<Slot>>>, E: map<nat, Edge>,
               id: nat, e: Edge, linked: bool, hnd: (nat, nat))
    requires Inv(n, V, A, E, id)
    requires e.lvl == |V| - 1 && e.v < n && e.u < n && e.v != e.u && e.firstLink == e.v && e.secondLink == e.u
    requires linked ==> e.treeEdges == [hnd] && hnd.0 !in V[|V| - 1].ends
    requires !linked ==> e.treeEdges == []
    ensures var top := |V| - 1;
      Inv(n, if linked then V[top := Added(V[top], id, hnd, (e.v, e.u))] else V,
          Subscribe(A, top, e.v, e.u, id), E[id := e], id + 1)
    ensures !IsTree(V, id) && (linked ==> IsTree(V[|V| - 1 := Added(V[|V| - 1], id, hnd, (e.v, e.u))], id))
  {
    forall j | 0 <= j < |V|
      ensures id !in V[j].handles
    {
      LevelAt(V, E, j);
    }
    GoodAdd(n, V, A, E, id, e, linked, hnd);
    StoredAdd(V, E, id, e, linked, hnd);
  }

  /** `downgrade` of record `id`: one level down, its list `tes`, a tree
      edge also holding, at its new last place, its new tree edge `hnd`
      one level down. */
  lemma StoredDown(V: seq<Level>, E: map<nat, Edge>, id: nat, tes: seq<(nat, nat)>, hnd: (nat, nat))
    requires Stored(V, E) && id in E && 1 <= E[id].lvl < |V| && id !in V[E[id].lvl - 1].handles
    requires IsTree(V, id) ==> tes == E[id].treeEdges + [hnd]
    requires !IsTree(V, id) ==> tes == E[id].treeEdges
    ensures var e := E[id]; var j := e.lvl - 1;
      var V' := if IsTree(V, id) then V[j := Added(V[j], id, hnd, (e.v, e.u))] else V;
      Stored(V', E[id := e.(lvl := j, firstLink := e.u, secondLink := e.v, treeEdges := tes)])
  {
    var e := E[id];
    var j := e.lvl - 1;
    var tree := IsTree(V, id);
    var V' := if tree then V[j := Added(V[j], id, hnd, (e.v, e.u))] else V;
    var e' := e.(lvl := j, firstLink := e.u, secondLink := e.v, treeEdges := tes);
    var E' := E[id := e'];
    assert Holding(V, id, e);
    KeepOthers(V, V', E, E', id);
    assert IsTree(V', id) == tree;
    forall i | 0 <= i < |tes|
      ensures HeldAt(V', id, i, tes[i])
    {
      if i < |e.treeEdges| {
        assert tes[i] == e.treeEdges[i];
        assert HeldAt(V, id, i, e.treeEdges[i]);
      }
    }
  }

  /** `downgrade` keeps `Good`: record `id` one level down, with its
      nodes in the lists of that level and, for a tree edge, the new tree
      edge there; `tes` is its new list of tree edges. */
  lemma GoodDown(n: nat, V: seq<Level>, A: seq<seq<seq<Slot>>>, E: map<nat, Edge>, id: nat, tes: seq<(nat, nat)>, hnd: (nat, nat))
    requires Good(n, V, A, E) && id in E && RecordOk(n, |V|, E[id]) && E[id].lvl >= 1
    requires IsTree(V, id) ==> hnd.0 !in V[E[id].lvl - 1].ends
    ensures var e := E[id]; var j := e.lvl - 1;
      Good(n, if IsTree(V, id) then V[j := Added(V[j], id, hnd, (e.v, e.u))] else V,
           Subscribe(Unsubscribe(A, e.lvl, e.firstLink, e.secondLink, id), j, e.u, e.v, id),
           E[id := e.(lvl := j, firstLink := e.u, secondLink := e.v, treeEdges := tes)])
  {
    var e := E[id];
    var j := e.lvl - 1;
    var V' := if IsTree(V, id) then V[j := Added(V[j], id, hnd, (e.v, e.u))] else V;
    var A' := Subscribe(Unsubscribe(A, e.lvl, e.firstLink, e.secondLink, id), j, e.u, e.v, id);
    var E1 := E[id := e.(lvl := j, firstLink := e.u, secondLink := e.v)];
    var E' := E[id := e.(lvl := j, firstLink := e.u, secondLink := e.v, treeEdges := tes)];
    assert E1[id := E1[id].(treeEdges := tes)] == E';
    LevelAt(V, E, j);
    Relevel(n, V, A, E, id);
    Retag(n, V, A', E1, id, tes);
    if IsTree(V, id) {
      Extend(n, V, A', E', id, j, hnd);
    }
    CompleteDown(V, E, id, hnd);
    Retag(n, V', A', E1, id, tes);
  }

  /** `downgrade` keeps the invariant; a tree edge's list gains its new
      tree edge `hnd`. */
  lemma InvDown(n: nat, V: seq<Level>, A: seq<seq<seq<Slot>>>, E: map<nat, Edge>, next: nat,
                id: nat, tes: seq<(nat, nat)>, hnd: (nat, nat))
    requires Inv(n, V, A, E, next) && id in E && RecordOk(n, |V|, E[id]) && E[id].lvl >= 1
    requires IsTree(V, id) ==> tes == E[id].treeEdges + [hnd] && hnd.0 !in V[E[id].lvl - 1].ends
    requires !IsTree(V, id) ==> tes == E[id].treeEdges
    ensures var e := E[id]; var j := e.lvl - 1;
      Inv(n, if IsTree(V, id) then V[j := Added(V[j], id, hnd, (e.v, e.u))] else V,
          Subscribe(Unsubscribe(A, e.lvl, e.firstLink, e.secondLink, id), j, e.u, e.v, id),
          E[id := e.(lvl := j, firstLink := e.u, secondLink := e.v, treeEdges := tes)], next)
  {
    LevelAt(V, E, E[id].lvl - 1);
    GoodDown(n, V, A, E, id, tes, hnd);
    StoredDown(V, E, id, tes, hnd);
  }

  /** `remove` once every tree edge of record `id` is cut: the record
      gone, the others hold. */
  lemma StoredDrop(V0: seq<Level>, V: seq<Level>, E: map<nat, Edge>, id: nat)
    requires Stored(V0, E) && id in E && |V| == |V0|
    requires forall j | 0 <= j < |V| :: V[j].handles == V0[j].handles - {id}
    ensures Stored(V, E - {id})
  {
    KeepOthers(V0, V, E, E - {id}, id);
  }

  /** `remove` keeps the invariant: the tree edges of record `id` cut (its
      handles gone from `V0`, giving `V`), its nodes unlinked and the
      record dropped. */
  lemma InvDrop(n: nat, V0: seq<Level>, V: seq<Level>, A: seq<seq<seq<Slot>>>, E: map<nat, Edge>, next: nat, id: nat)
    requires Inv(n, V0, A, E, next) && Core(n, V, A, E) && id in E && RecordOk(n, |V|, E[id]) && |V| == |V0|
    requires forall j | 0 <= j < |V| :: V[j].handles == V0[j].handles - {id}
    ensures Inv(n, V, Unsubscribe(A, E[id].lvl, E[id].firstLink, E[id].secondLink, id), E - {id}, next)
  {
    Unlist(n, V, A, E, id);
    CompleteDrop(V0, V, E, id);
    StoredDrop(V0, V, E, id);
  }

  // ---------------------------------------------------------------------
  // Tree edges as pairs

  /** A new handle adds its pair to the tree edges. */
  lemma EdgeSetAdd(m: map<nat, (nat, nat)>, h: nat, p: (nat, nat))
    requires h !in m
    ensures EdgeSet(m[h := p]) == EdgeSet(m) + {p}
  {
    forall q | q in EdgeSet(m)
      ensures q in EdgeSet(m[h := p])
    {
      var l :| l in m && m[l] == q;
      assert m[h := p][l] == q;
    }
    assert m[h := p][h] == p;
  }

  /** Cutting a bridge takes its pair, and no other, out of the tree
      edges. */
  lemma EdgeSetCut(m: map<nat, (nat, nat)>, h: nat)
    requires h in m && !Reach(EdgeSet(m - {h}), m[h].0, m[h].1)
    ensures EdgeSet(m - {h}) == EdgeSet(m) - {m[h]}
  {
    var S := EdgeSet(m - {h});
    if m[h] in S {
      ReachRefl(S, m[h].0);
      ReachStep(S, m[h].0, m[h].0, m[h].1);
    }
    forall q | q in EdgeSet(m) && q != m[h]
      ensures q in S
    {
      var l :| l in m && m[l] == q;
      assert (m - {h})[l] == q;
    }
  }

  /** The records of `E0` are those of `E`, with the same ends, each at its
      old level or below. */
  ghost predicate Kept(E0: map<nat, Edge>, E: map<nat, Edge>)
  {
    E.Keys == E0.Keys && forall k | k in E :: E[k].v == E0[k].v && E[k].u == E0[k].u && E[k].lvl <= E0[k].lvl
  }

  /** Records kept, the graph's edges are the same. */
  lemma KeptPairs(E0: map<nat, Edge>, E: map<nat, Edge>)
    requires Kept(E0, E)
    ensures Pairs(E) == Pairs(E0)
  {
    forall p | p in Pairs(E0)
      ensures p in Pairs(E)
    {
      var k :| k in E0 && (E0[k].v, E0[k].u) == p;
      assert (E[k].v, E[k].u) == p;
    }
  }

  /** A new record adds its ends to the graph's edges. */
  lemma PairsAdd(E: map<nat, Edge>, id: nat, e: Edge)
    requires id !in E
    ensures Pairs(E[id := e]) == Pairs(E) + {(e.v, e.u)}
  {
    forall p | p in Pairs(E)
      ensures p in Pairs(E[id := e])
    {
      var k :| k in E && (E[k].v, E[k].u) == p;
      assert E[id := e][k] == E[k];
    }
    assert E[id := e][id] == e;
  }
}

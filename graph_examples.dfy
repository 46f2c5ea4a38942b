/**
 * A triangle of three vertices on DynamicGraph: `add(0, 1)` and
 * `add(1, 2)` become tree edges, `add(0, 2)` a non-tree edge, and once
 * the first tree edge is removed the search has nothing to leave behind
 * but the third edge, which joins the two sides: every two vertices stay
 * connected.
 */
module GraphExamples {

  import opened Wrappers
  import opened Graph
  import opened ForestTheory
  import opened Levels
  import opened GraphState
  import opened Connectivity

  /** Without the first edge, the edge (0, 2) of level `top` joins the side
      of 0 to that of 1, whichever side the search scanned. */
  lemma Joined(E: map<nat, Edge>, id: nat, top: nat)
    requires id in E && E[id].lvl == top && E[id].v == 0 && E[id].u == 2
    ensures !Uncrossed({(1, 2)}, {(1, 2)}, E, top, 0, 0, 1) && !Uncrossed({(1, 2)}, {(1, 2)}, E, top, 1, 0, 1)
  {
    var T := {(1, 2)};
    ReachRefl(T, 0);
    ReachRefl(T, 1);
    ReachRefl(T, 2);
    ReachStep(T, 1, 1, 2);
    ReachStep(T, 2, 2, 1);
    assert Joins(T, 0, 2, 0, 1);
  }

  /** `new DynamicGraph(3)`, `add(0, 1)`, `add(1, 2)`, `add(0, 2)`: the
      first two edges are the tree edges of the top forest, the third is
      another edge of the top level. */
  method Build() returns (g: DynamicGraph, t0: EdgeToken, ghost id2: nat)
    ensures fresh(g) && fresh(t0) && g.Valid() && g.n == 3 && g.size >= 2 && g.Spanning() == {(0, 1), (1, 2)}
    ensures t0.edge.Some? && t0.edge.value in g.edges && id2 in g.edges && t0.edge.value != id2
    ensures var e := g.edges[t0.edge.value]; e.lvl == g.size - 1 && e.v == 0 && e.u == 1
    ensures var e := g.edges[id2]; e.lvl == g.size - 1 && e.v == 0 && e.u == 2
  {
    g := new DynamicGraph(3);
    assert g.size >= 2;
    NoEdges(0, 1);
    var a := g.Add(0, 1);
    t0 := a.value;
    Unreachable(g.Spanning(), {0, 1}, {2}, 1, 2);
    var b := g.Add(1, 2);
    ghost var S := g.Spanning();
    assert S == {(0, 1), (1, 2)};
    ReachRefl(S, 0);
    ReachStep(S, 0, 0, 1);
    ReachStep(S, 0, 1, 2);
    var c := g.Add(0, 2);
    id2 := c.value.edge.value;
  }

  /** The triangle with its first edge removed, then `isConnected` of
      every two vertices. */
  method Triangle() returns (c01: Option<bool>, c02: Option<bool>, c12: Option<bool>)
    ensures c01 == Some(true) && c02 == Some(true) && c12 == Some(true)
  {
    var g, t0;
    ghost var id2;
    g, t0, id2 := Build();
    ghost var S, V, E, id0 := g.Spanning(), g.levels, g.edges, t0.edge.value;
    ReachRefl(S, 0);
    ReachRefl(S, 1);
    ReachStep(S, 0, 0, 1);
    ReachStep(S, 0, 1, 2);
    ReachStep(S, 1, 1, 2);
    assert EdgeSet(V[g.size - 1].ends) - {(0, 1)} == {(1, 2)} && S - {(0, 1)} == {(1, 2)};
    Joined(E - {id0}, id2, g.size - 1);
    var ok;
    ghost var rep;
    ok, rep := g.Remove(t0);
    c01 := g.IsConnected(0, 1);
    c02 := g.IsConnected(0, 2);
    c12 := g.IsConnected(1, 2);
  }
}

/**
 * The forests of the levels of DynamicGraph.java, seen through values:
 * `L[j]` is the state of the forest of level `j`, `R[j]` its `anyRoot`,
 * and `V[j]` the level record (Levels) that mirrors its tree edges. Each
 * forest operation the graph calls is wrapped here so that the graph
 * reasons about the level records alone.
 */
module LevelForests {

  import opened Wrappers
  import opened Graph
  import opened ForestTheory
  import opened Forest
  import opened Levels
  import opened TourIteration

  /** Level `F` records the tree edges of the forest in state `L`. */
  ghost predicate Mirrors(F: Level, L: Layout)
  {
    F.ends == Ends(L) && F.links == L.links
  }

  /** The forest in state `x`, with root hint `r`, is a sound forest of `n`
      vertices whose tree edges level `F` records. */
  ghost predicate Fits(n: nat, F: Level, x: Layout, r: Option<nat>)
  {
    x.n == n && Sound(x) && Rooted(x, r) && Mirrors(F, x)
  }

  /** Every layout of `L` fits the level of `V` and the root hint of `R` at
      the same place. (The trigger keeps the solver from looking into a
      forest unless a lemma here asks about that forest.) */
  ghost predicate Pictured(n: nat, V: seq<Level>, L: seq<Layout>, R: seq<Option<nat>>)
  {
    && |V| == |L| == |R|
    && forall j {:trigger Fits(n, V[j], L[j], R[j])} | 0 <= j < |L| :: Fits(n, V[j], L[j], R[j])
  }

  lemma PicturedAt(n: nat, V: seq<Level>, L: seq<Layout>, R: seq<Option<nat>>, j: nat)
    requires Pictured(n, V, L, R) && j < |L|
    ensures Fits(n, V[j], L[j], R[j])
  {
  }

  lemma PicturedPut(n: nat, V: seq<Level>, L: seq<Layout>, R: seq<Option<nat>>, j: nat, F: Level, x: Layout, r: Option<nat>)
    requires Pictured(n, V, L, R) && j < |L| && Fits(n, F, x, r)
    ensures Pictured(n, V[j := F], L[j := x], R[j := r])
  {
    var V', L', R' := V[j := F], L[j := x], R[j := r];
    forall k | 0 <= k < |L|
      ensures Fits(n, V'[k], L'[k], R'[k])
    {
      if k != j {
        PicturedAt(n, V, L, R, k);
      }
    }
  }

  /** A tree edge of a level is a bridge of its forest. */
  lemma BridgeOf(n: nat, V: seq<Level>, L: seq<Layout>, R: seq<Option<nat>>, j: nat, h: nat)
    requires Pictured(n, V, L, R) && j < |L| && h in V[j].links
    ensures h in V[j].ends && Bridge(V[j], h)
  {
    PicturedAt(n, V, L, R, j);
    Acyclic(L[j], h);
  }

  /** Forest `f` is the one of level `j`. */
  ghost predicate Shows(f: EulerTourForest, L: seq<Layout>, R: seq<Option<nat>>, j: nat)
    reads f
  {
    j < |L| && j < |R| && f.State() == L[j] && f.anyRoot == R[j]
  }

  /** The forest of a level is valid. */
  lemma ValidOf(f: EulerTourForest, n: nat, V: seq<Level>, L: seq<Layout>, R: seq<Option<nat>>, j: nat)
    requires Pictured(n, V, L, R) && Shows(f, L, R, j)
    ensures f.Valid() && f.n == n && Mirrors(V[j], f.State())
  {
    PicturedAt(n, V, L, R, j);
  }

  /** `link(x, y)` on the forest of level `j`, for record `id`. */
  method LinkIn(f: EulerTourForest, ghost n: nat, ghost V: seq<Level>, ghost L: seq<Layout>, ghost R: seq<Option<nat>>, ghost j: nat, ghost id: nat, x: nat, y: nat)
    returns (te: TreeEdge)
    requires Pictured(n, V, L, R) && Shows(f, L, R, j) && x < n && y < n
    requires !Reach(EdgeSet(V[j].ends), x, y)
    modifies f
    ensures fresh(te) && te.edge.Some? && te.twin.Some? && te.edge.value !in V[j].ends
    ensures Pictured(n, V[j := Added(V[j], id, (te.edge.value, te.twin.value), (x, y))], L[j := f.State()], R[j := f.anyRoot])
  {
    ValidOf(f, n, V, L, R, j);
    te := f.Link(x, y);
    PicturedPut(n, V, L, R, j, Added(V[j], id, (te.edge.value, te.twin.value), (x, y)), f.State(), f.anyRoot);
  }

  /** `cut(te)` on the forest of level `j`, `te` holding the handle of
      record `id`. */
  method CutIn(f: EulerTourForest, te: TreeEdge, ghost n: nat, ghost V: seq<Level>, ghost L: seq<Layout>, ghost R: seq<Option<nat>>, ghost j: nat, ghost id: nat)
    requires Pictured(n, V, L, R) && Shows(f, L, R, j) && id in V[j].handles
    requires te.edge == Some(V[j].handles[id].0) && te.twin == Some(V[j].handles[id].1)
    requires V[j].handles[id].0 in V[j].links && V[j].links[V[j].handles[id].0] == V[j].handles[id].1
    modifies f, te
    ensures te.edge.None?
    ensures Pictured(n, V[j := Removed(V[j], id)], L[j := f.State()], R[j := f.anyRoot])
  {
    ValidOf(f, n, V, L, R, j);
    f.Cut(te);
    PicturedPut(n, V, L, R, j, Removed(V[j], id), f.State(), f.anyRoot);
  }

  /** `incrementEdges` (`up`) or `decrementEdges` of `x` and of `y` on the
      forest of level `j`: each of the two counters moves by one, and the
      tree edges stay. */
  method CountIn(f: EulerTourForest, ghost n: nat, ghost V: seq<Level>, ghost L: seq<Layout>, ghost R: seq<Option<nat>>, ghost j: nat, x: nat, y: nat, up: bool)
    requires Pictured(n, V, L, R) && Shows(f, L, R, j) && x < n && y < n
    modifies f
    ensures Pictured(n, V, L[j := f.State()], R[j := f.anyRoot]) && |L[j].counts| == n
    ensures var d := if up then 1 else -1; var c := L[j].counts[x := L[j].counts[x] + d];
      f.State().counts == c[y := c[y] + d]
  {
    ValidOf(f, n, V, L, R, j);
    if up {
      f.IncrementEdges(x);
      f.IncrementEdges(y);
    } else {
      f.DecrementEdges(x);
      f.DecrementEdges(y);
    }
    PicturedPut(n, V, L, R, j, V[j], f.State(), f.anyRoot);
    assert V[j := V[j]] == V;
  }

  /** `isConnected(v, u)` on the forest of level `j`. */
  function ConnectedIn(f: EulerTourForest, ghost n: nat, ghost V: seq<Level>, ghost L: seq<Layout>, ghost R: seq<Option<nat>>, ghost j: nat, v: nat, u: nat): (b: bool)
    reads f
    requires Pictured(n, V, L, R) && Shows(f, L, R, j) && v < n && u < n
    ensures b <==> Reach(EdgeSet(V[j].ends), v, u)
  {
    ValidOf(f, n, V, L, R, j);
    f.IsConnected(v, u)
  }

  /** `isConnected()` on the forest of level `j`, as written: false for a
      single vertex. */
  function AllConnectedIn(f: EulerTourForest, ghost n: nat, ghost V: seq<Level>, ghost L: seq<Layout>, ghost R: seq<Option<nat>>, ghost j: nat): (b: bool)
    reads f
    requires Pictured(n, V, L, R) && Shows(f, L, R, j)
    ensures b <==> n >= 2 && forall v, u | 0 <= v < n && 0 <= u < n :: Reach(EdgeSet(V[j].ends), v, u)
  {
    ValidOf(f, n, V, L, R, j);
    assert Edges(f.State()) == EdgeSet(V[j].ends);
    f.IsAllConnectedAsWritten()
  }

  /** `size(v)` on the forest of level `j`: 1 for a vertex alone, 2c - 2
      for a tree of c vertices. */
  function SizeIn(f: EulerTourForest, ghost n: nat, ghost V: seq<Level>, ghost L: seq<Layout>, ghost R: seq<Option<nat>>, ghost j: nat, v: nat): (r: int)
    reads f
    requires Pictured(n, V, L, R) && Shows(f, L, R, j) && v < n
    ensures var c := |Connected(L[j], v)|; r == if c == 1 then 1 else 2 * c - 2
  {
    ValidOf(f, n, V, L, R, j);
    f.Size(v)
  }

  /** `iterator(v)` on the forest of level `j`, as written: every vertex
      connected to `v` at that level that has active edges there, and no
      vertex outside that tree (the first of the tour may come without
      active edges, see ETFIterator.AsWritten). */
  method IteratorIn(f: EulerTourForest, ghost n: nat, ghost V: seq<Level>, ghost L: seq<Layout>, ghost R: seq<Option<nat>>, ghost j: nat, v: nat)
    returns (it: ETFIterator)
    requires Pictured(n, V, L, R) && Shows(f, L, R, j) && v < n
    ensures fresh(it) && it.Valid() && j < |L| && |L[j].counts| == n
    ensures forall x: nat :: x < n && Reach(EdgeSet(V[j].ends), v, x) && L[j].counts[x] > 0 ==> x in it.Remaining
    ensures forall x: nat :: x in it.Remaining ==> x < n && Reach(EdgeSet(V[j].ends), v, x)
  {
    ValidOf(f, n, V, L, R, j);
    ghost var x := L[j];
    assert Edges(x) == EdgeSet(V[j].ends) && x.n == n;
    it := f.IteratorAsWritten(v);
    ghost var rem := it.Remaining;
    forall y: nat | y < n && Reach(EdgeSet(V[j].ends), v, y) && x.counts[y] > 0
      ensures y in rem
    {
      assert y in Connected(x, v);
    }
    forall y: nat | y in rem
      ensures y < n && Reach(EdgeSet(V[j].ends), v, y)
    {
      assert y in Connected(x, v);
    }
  }
}

/**
 * How the steps EulerTourForest.java takes inside its operations move a
 * forest from one state to the next: the counters moved by
 * `changeEdges`/`changeAny`, the trees split, merged, rotated and grown by
 * `split`, `merge`, `makeRoot` and `expand`, and the two theorems that
 * close `link` and `cut` (the forest is again sound, and its tree edges
 * gained or lost exactly the one edge).
 */
module ForestSteps {

  import opened TourTree
  import opened EulerTour
  import opened ForestTheory

  // ---------------------------------------------------------------------
  // Counters

  /** `Tallied`, except that the counters of the occurrences in `x` may be
      off: what holds halfway through `changeAny` and the counter updates. */
  ghost predicate TalliedBut(ts: seq<Tree>, x: set<nat>, any: seq<nat>, counts: seq<int>, vertexOf: map<nat, nat>, nextId: nat)
  {
    forall k | 0 <= k < |ts| :: forall e | e in Seq(ts[k]) ::
      && e.v < |any| && e.v < |counts|
      && e.id < nextId && e.id in vertexOf && vertexOf[e.id] == e.v
      && (e.id in x || e.edges == (if e.id == any[e.v] then counts[e.v] else 0))
  }

  lemma TalliedNone(ts: seq<Tree>, any: seq<nat>, counts: seq<int>, vertexOf: map<nat, nat>, nextId: nat)
    ensures Tallied(ts, any, counts, vertexOf, nextId) <==> TalliedBut(ts, {}, any, counts, vertexOf, nextId)
  {
  }

  /** Pointing `any[w]` at another occurrence of `w` puts off only the
      counters of the old and the new `any` occurrence. */
  lemma Repoint(ts: seq<Tree>, any: seq<nat>, counts: seq<int>, vertexOf: map<nat, nat>, nextId: nat, w: nat, e: nat)
    requires Tallied(ts, any, counts, vertexOf, nextId) && w < |any|
    requires e in vertexOf && vertexOf[e] == w
    ensures TalliedBut(ts, {any[w], e}, any[w := e], counts, vertexOf, nextId)
  {
  }

  /** Changing the count of `w` puts off only the counter of its `any`
      occurrence. */
  lemma Recount(ts: seq<Tree>, any: seq<nat>, counts: seq<int>, vertexOf: map<nat, nat>, nextId: nat, w: nat, c: int)
    requires Tallied(ts, any, counts, vertexOf, nextId) && w < |counts| && w < |any|
    ensures TalliedBut(ts, {any[w]}, any, counts[w := c], vertexOf, nextId)
  {
  }

  /** Setting the counter of occurrence `id` to the value it should hold
      takes it out of the exceptions. */
  lemma Fix(ts: seq<Tree>, x: set<nat>, any: seq<nat>, counts: seq<int>, vertexOf: map<nat, nat>, nextId: nat,
            k: int, id: nat, c: int, t: Tree)
    requires TalliedBut(ts, x, any, counts, vertexOf, nextId)
    requires 0 <= k < |ts| && id in Ids(ts[k]) && Unique(Seq(ts[k])) && IdsApart(ts)
    requires Seq(t) == Bumped(ts[k], id, c)
    requires id in vertexOf && vertexOf[id] < |any| && vertexOf[id] < |counts|
    requires c == (if id == any[vertexOf[id]] then counts[vertexOf[id]] else 0)
    ensures TalliedBut(ts[k := t], x - {id}, any, counts, vertexOf, nextId)
    ensures Skel(Seq(t)) == Skel(Seq(ts[k]))
  {
    var s := Seq(ts[k]);
    var p := Pos(Locate(ts[k], id));
    assert s[p] in s;
    forall e | e in Seq(t)
      ensures && e.v < |any| && e.v < |counts|
              && e.id < nextId && e.id in vertexOf && vertexOf[e.id] == e.v
              && (e.id in x - {id} || e.edges == (if e.id == any[e.v] then counts[e.v] else 0))
    {
      var i :| 0 <= i < |Seq(t)| && Seq(t)[i] == e;
      if i != p {
        assert e == s[i] && s[i] in s;
        assert e.id != id;
      }
    }
    forall j, e | 0 <= j < |ts| && j != k && e in Seq(ts[j])
      ensures e.id != id
    {
      InSets(Seq(ts[j]));
      IdsAgree(ts[k]);
    }
    assert forall i | 0 <= i < |s| :: Skel(Seq(t))[i] == Skel(s)[i];
  }

  // ---------------------------------------------------------------------
  // Splitting, merging and dropping trees

  /** The forest without its tree `j`. */
  function Drop(ts: seq<Tree>, j: int): (r: seq<Tree>)
    requires 0 <= j < |ts|
    ensures |r| == |ts| - 1
    ensures forall m | 0 <= m < |r| :: r[m] == ts[if m < j then m else m + 1]
  {
    ts[..j] + ts[j + 1..]
  }

  lemma UniqueParts(a: seq<Entry>, b: seq<Entry>)
    requires Unique(a + b)
    ensures Unique(a) && Unique(b) && IdsOf(a) !! IdsOf(b)
  {
    UniqueApart(a, b);
    assert forall i | 0 <= i < |a| :: (a + b)[i] == a[i];
    assert forall i | 0 <= i < |b| :: (a + b)[|a| + i] == b[i];
  }

  /** A forest of valid, disjoint trees with the same occurrences, each of
      them counted, is loose when the forest it came from is. */
  lemma LooseFrom(F: Layout, G: Layout)
    requires Loose(F)
    requires G.n == F.n && G.any == F.any && G.counts == F.counts && G.vertexOf == F.vertexOf && G.nextId == F.nextId
    requires forall x | 0 <= x < |G.trees| :: TourTree.Valid(G.trees[x]) && G.trees[x].Node? && Unique(Seq(G.trees[x]))
    requires IdsApart(G.trees) && AllIds(G.trees) == AllIds(F.trees)
    requires Tallied(G.trees, G.any, G.counts, G.vertexOf, G.nextId)
    ensures Loose(G)
  {
  }

  lemma SplitApart(ts: seq<Tree>, k: int, l: Tree, r: Tree)
    requires IdsApart(ts) && 0 <= k < |ts| && Unique(Seq(ts[k]))
    requires Seq(l) + Seq(r) == Seq(ts[k])
    ensures IdsApart(ts[k := l] + [r]) && AllIds(ts[k := l] + [r]) == AllIds(ts)
    ensures Unique(Seq(l)) && Unique(Seq(r))
  {
    var G := ts[k := l] + [r];
    UniqueParts(Seq(l), Seq(r));
    VertsCat(Seq(l), Seq(r));
    forall x | 0 <= x < |G|
      ensures IdSet(G[x]) <= IdSet(ts[if x == |ts| then k else x])
    {
    }
    forall a, b | 0 <= a < |G| && 0 <= b < |G| && a != b
      ensures IdSet(G[a]) !! IdSet(G[b])
    {
      var oa, ob := if a == |ts| then k else a, if b == |ts| then k else b;
      if oa != ob {
        assert IdSet(ts[oa]) !! IdSet(ts[ob]);
      }
    }
    forall id | id in AllIds(ts)
      ensures id in AllIds(G)
    {
      var y := Owner(ts, id);
      if y != k {
        AllIdsAt(G, y, id);
      } else if id in IdSet(l) {
        AllIdsAt(G, k, id);
      } else {
        AllIdsAt(G, |ts|, id);
      }
    }
    forall id | id in AllIds(G)
      ensures id in AllIds(ts)
    {
      var x := Owner(G, id);
      AllIdsAt(ts, if x == |ts| then k else x, id);
    }
  }

  lemma SplitTallied(ts: seq<Tree>, k: int, l: Tree, r: Tree, any: seq<nat>, counts: seq<int>, vertexOf: map<nat, nat>, nextId: nat)
    requires Tallied(ts, any, counts, vertexOf, nextId) && 0 <= k < |ts|
    requires Seq(l) + Seq(r) == Seq(ts[k])
    ensures Tallied(ts[k := l] + [r], any, counts, vertexOf, nextId)
  {
    var G := ts[k := l] + [r];
    forall x, e | 0 <= x < |G| && e in Seq(G[x])
      ensures Counted(e, any, counts, vertexOf, nextId)
    {
      assert e in Seq(ts[if x == |ts| then k else x]);
    }
  }

  /** `split`: tree `k` becomes `l` in place and `r` at the end. */
  lemma SplitLoose(F: Layout, k: int, l: Tree, r: Tree)
    requires Loose(F) && 0 <= k < |F.trees|
    requires TourTree.Valid(l) && TourTree.Valid(r) && l.Node? && r.Node?
    requires Seq(l) + Seq(r) == Seq(F.trees[k])
    ensures Loose(F.(trees := F.trees[k := l] + [r]))
    ensures AllIds(F.trees[k := l] + [r]) == AllIds(F.trees)
  {
    SplitApart(F.trees, k, l, r);
    SplitTallied(F.trees, k, l, r, F.any, F.counts, F.vertexOf, F.nextId);
    LooseFrom(F, F.(trees := F.trees[k := l] + [r]));
  }

  lemma MergeApart(ts: seq<Tree>, i: int, j: int, t: Tree)
    requires IdsApart(ts) && 0 <= i < |ts| && 0 <= j < |ts| && i != j
    requires Unique(Seq(ts[i])) && Unique(Seq(ts[j]))
    requires Seq(t) == Seq(ts[i]) + Seq(ts[j])
    ensures IdsApart(Drop(ts[i := t], j)) && AllIds(Drop(ts[i := t], j)) == AllIds(ts)
    ensures Unique(Seq(t))
  {
    assert IdSet(ts[i]) !! IdSet(ts[j]);
    JoinUnique(Seq(ts[i]), Seq(ts[j]));
    VertsCat(Seq(ts[i]), Seq(ts[j]));
    MergeDisjoint(ts, i, j, t);
    MergeIds(ts, i, j, t);
  }

  /** The merged tree is apart from the others when both halves were. */
  lemma MergeDisjoint(ts: seq<Tree>, i: int, j: int, t: Tree)
    requires IdsApart(ts) && 0 <= i < |ts| && 0 <= j < |ts| && i != j
    requires IdSet(t) == IdSet(ts[i]) + IdSet(ts[j])
    ensures IdsApart(Drop(ts[i := t], j))
  {
    var G := Drop(ts[i := t], j);
    forall a, b | 0 <= a < |G| && 0 <= b < |G| && a != b
      ensures IdSet(G[a]) !! IdSet(G[b])
    {
      var oa, ob := if a < j then a else a + 1, if b < j then b else b + 1;
      if oa == i {
        assert IdSet(ts[ob]) !! IdSet(ts[i]) && IdSet(ts[ob]) !! IdSet(ts[j]);
      } else if ob == i {
        assert IdSet(ts[oa]) !! IdSet(ts[i]) && IdSet(ts[oa]) !! IdSet(ts[j]);
      } else {
        assert IdSet(ts[oa]) !! IdSet(ts[ob]);
      }
    }
  }

  /** The merged tree holds exactly the identifiers of the two it replaces. */
  lemma MergeIds(ts: seq<Tree>, i: int, j: int, t: Tree)
    requires 0 <= i < |ts| && 0 <= j < |ts| && i != j
    requires Seq(t) == Seq(ts[i]) + Seq(ts[j])
    ensures AllIds(Drop(ts[i := t], j)) == AllIds(ts)
  {
    var G := Drop(ts[i := t], j);
    VertsCat(Seq(ts[i]), Seq(ts[j]));
    var ni := if i < j then i else i - 1;
    forall id | id in AllIds(ts)
      ensures id in AllIds(G)
    {
      var y := Owner(ts, id);
      if y == i || y == j {
        AllIdsAt(G, ni, id);
      } else {
        AllIdsAt(G, if y < j then y else y - 1, id);
      }
    }
    forall id | id in AllIds(G)
      ensures id in AllIds(ts)
    {
      var x := Owner(G, id);
      var o := if x < j then x else x + 1;
      if o == i {
        if id in IdSet(ts[i]) {
          AllIdsAt(ts, i, id);
        } else {
          AllIdsAt(ts, j, id);
        }
      } else {
        AllIdsAt(ts, o, id);
      }
    }
  }

  lemma MergeTallied(ts: seq<Tree>, i: int, j: int, t: Tree, any: seq<nat>, counts: seq<int>, vertexOf: map<nat, nat>, nextId: nat)
    requires Tallied(ts, any, counts, vertexOf, nextId) && 0 <= i < |ts| && 0 <= j < |ts| && i != j
    requires Seq(t) == Seq(ts[i]) + Seq(ts[j])
    ensures Tallied(Drop(ts[i := t], j), any, counts, vertexOf, nextId)
  {
    var G := Drop(ts[i := t], j);
    forall x, e | 0 <= x < |G| && e in Seq(G[x])
      ensures Counted(e, any, counts, vertexOf, nextId)
    {
      var o := if x < j then x else x + 1;
      if o == i {
        assert e in Seq(ts[i]) || e in Seq(ts[j]);
      } else {
        assert e in Seq(ts[o]);
      }
    }
  }

  /** `merge`: trees `i` and `j` become one, in place of `i`. */
  lemma MergeLoose(F: Layout, i: int, j: int, t: Tree)
    requires Loose(F) && 0 <= i < |F.trees| && 0 <= j < |F.trees| && i != j
    requires TourTree.Valid(t) && Seq(t) == Seq(F.trees[i]) + Seq(F.trees[j])
    ensures Loose(F.(trees := Drop(F.trees[i := t], j)))
    ensures AllIds(Drop(F.trees[i := t], j)) == AllIds(F.trees)
  {
    MergeApart(F.trees, i, j, t);
    MergeTallied(F.trees, i, j, t, F.any, F.counts, F.vertexOf, F.nextId);
    assert t.Node?;
    LooseFrom(F, F.(trees := Drop(F.trees[i := t], j)));
  }

  /** Replacing tree `k` by a tree whose new occurrences are nowhere else. */
  lemma ReplaceApart(ts: seq<Tree>, k: int, t: Tree)
    requires IdsApart(ts) && 0 <= k < |ts|
    requires forall id | id in IdSet(t) && id !in IdSet(ts[k]) :: id !in AllIds(ts)
    ensures IdsApart(ts[k := t]) && AllIds(ts[k := t]) == AllIds(ts) - IdSet(ts[k]) + IdSet(t)
  {
    var G := ts[k := t];
    forall a, b | 0 <= a < |G| && 0 <= b < |G| && a != b
      ensures IdSet(G[a]) !! IdSet(G[b])
    {
      if a == k {
        assert IdSet(ts[b]) !! IdSet(ts[k]);
        forall id | id in IdSet(t) && id in IdSet(ts[b])
          ensures false
        {
          AllIdsAt(ts, b, id);
        }
      } else if b == k {
        assert IdSet(ts[a]) !! IdSet(ts[k]);
        forall id | id in IdSet(t) && id in IdSet(ts[a])
          ensures false
        {
          AllIdsAt(ts, a, id);
        }
      } else {
        assert IdSet(ts[a]) !! IdSet(ts[b]);
      }
    }
    forall id | id in AllIds(ts) - IdSet(ts[k]) + IdSet(t)
      ensures id in AllIds(G)
    {
      if id in IdSet(t) {
        AllIdsAt(G, k, id);
      } else {
        var y := Owner(ts, id);
        AllIdsAt(G, y, id);
      }
    }
    forall id | id in AllIds(G)
      ensures id in AllIds(ts) - IdSet(ts[k]) + IdSet(t)
    {
      var x := Owner(G, id);
      if x != k {
        AllIdsAt(ts, x, id);
        assert IdSet(ts[x]) !! IdSet(ts[k]);
      }
    }
  }

  /** Replacing tree `k` by one whose occurrences are all counted, under a
      record of vertices and a counter of identities that only grew. */
  lemma ReplaceTallied(ts: seq<Tree>, k: int, t: Tree, any: seq<nat>, counts: seq<int>,
                       vertexOf: map<nat, nat>, nextId: nat, vertexOf': map<nat, nat>, nextId': nat)
    requires Tallied(ts, any, counts, vertexOf, nextId) && 0 <= k < |ts|
    requires forall id | id in vertexOf :: id in vertexOf' && vertexOf'[id] == vertexOf[id]
    requires nextId <= nextId'
    requires forall e | e in Seq(t) :: Counted(e, any, counts, vertexOf', nextId')
    ensures Tallied(ts[k := t], any, counts, vertexOf', nextId')
  {
  }

  lemma RotatedUnique(s: seq<Entry>, k: int)
    requires Unique(s) && 0 <= k < |s|
    ensures Unique(Rotated(s, k)) && (forall e :: e in Rotated(s, k) <==> e in s)
  {
    RotatedAt(s, k);
    var r := Rotated(s, k);
    forall i, j | 0 <= i < j < |r|
      ensures r[i].id != r[j].id
    {
      var a, b := Origin(|s|, k, i), Origin(|s|, k, j);
      assert a != b;
      if a < b {
        assert s[a].id != s[b].id;
      } else {
        assert s[b].id != s[a].id;
      }
    }
    assert s == s[..k] + s[k..];
  }

  /** `makeRoot`: tree `k` read from position `p`. */
  lemma RotateLoose(F: Layout, k: int, p: int, t: Tree)
    requires Loose(F) && 0 <= k < |F.trees| && 0 <= p < |Seq(F.trees[k])|
    requires TourTree.Valid(t) && Seq(t) == Rotated(Seq(F.trees[k]), p)
    ensures Loose(F.(trees := F.trees[k := t]))
    ensures AllIds(F.trees[k := t]) == AllIds(F.trees)
  {
    var s := Seq(F.trees[k]);
    RotatedUnique(s, p);
    RotatedSets(s, p);
    ReplaceApart(F.trees, k, t);
    ReplaceTallied(F.trees, k, t, F.any, F.counts, F.vertexOf, F.nextId, F.vertexOf, F.nextId);
    assert |Seq(t)| == |s|;
    LooseFrom(F, F.(trees := F.trees[k := t]));
  }

  /** `remove`: an occurrence no vertex points at leaves tree `k`. */
  lemma RemoveLoose(F: Layout, k: int, p: int, t: Tree)
    requires Loose(F) && 0 <= k < |F.trees| && 0 <= p < |Seq(F.trees[k])| && |Seq(F.trees[k])| >= 2
    requires forall v | 0 <= v < F.n :: F.any[v] != Seq(F.trees[k])[p].id
    requires TourTree.Valid(t) && Seq(t) == Seq(F.trees[k])[..p] + Seq(F.trees[k])[p + 1..]
    ensures Loose(F.(trees := F.trees[k := t]))
    ensures AllIds(F.trees[k := t]) == AllIds(F.trees) - {Seq(F.trees[k])[p].id}
  {
    var s := Seq(F.trees[k]);
    var G := F.trees[k := t];
    assert s == s[..p] + [s[p]] + s[p + 1..];
    UniqueParts(s[..p] + [s[p]], s[p + 1..]);
    UniqueParts(s[..p], [s[p]]);
    VertsCat(s[..p] + [s[p]], s[p + 1..]);
    VertsCat(s[..p], [s[p]]);
    VertsCat(s[..p], s[p + 1..]);
    VertsOne(s[p]);
    JoinUnique(s[..p], s[p + 1..]);
    assert IdSet(t) == IdSet(F.trees[k]) - {s[p].id};
    ReplaceApart(F.trees, k, t);
    ReplaceTallied(F.trees, k, t, F.any, F.counts, F.vertexOf, F.nextId, F.vertexOf, F.nextId);
    assert t.Node?;
    forall v | 0 <= v < F.n
      ensures F.any[v] in AllIds(G)
    {
    }
    ReplacedLoose(F, k, t);
  }

  /** Tree `k` replaced by a valid tree of distinct, counted occurrences,
      apart from the others, that leaves every `any` occurrence in place. */
  lemma ReplacedLoose(F: Layout, k: int, t: Tree)
    requires 0 <= k < |F.trees| && TourTree.Valid(t) && t.Node? && Unique(Seq(t))
    requires IdsApart(F.trees[k := t]) && Tallied(F.trees[k := t], F.any, F.counts, F.vertexOf, F.nextId)
    requires |F.any| == F.n && forall v | 0 <= v < F.n :: F.any[v] in AllIds(F.trees[k := t])
    requires Loose(F)
    ensures Loose(F.(trees := F.trees[k := t]))
  {
  }

  /** `expand`: tree `k` gains a fresh occurrence of vertex `v` at its end. */
  lemma ExpandLoose(F: Layout, k: int, v: nat, t: Tree)
    requires Loose(F) && 0 <= k < |F.trees| && v < F.n
    requires TourTree.Valid(t) && Seq(t) == Seq(F.trees[k]) + [Entry(F.nextId, v, 0)]
    ensures Loose(F.(trees := F.trees[k := t], vertexOf := F.vertexOf[F.nextId := v], nextId := F.nextId + 1))
    ensures AllIds(F.trees[k := t]) == AllIds(F.trees) + {F.nextId}
  {
    var s := Seq(F.trees[k]);
    var f := Entry(F.nextId, v, 0);
    var G := F.(trees := F.trees[k := t], vertexOf := F.vertexOf[F.nextId := v], nextId := F.nextId + 1);
    forall id | id in AllIds(F.trees)
      ensures id < F.nextId
    {
      var y := Owner(F.trees, id);
      var i := IndexOf(Seq(F.trees[y]), id);
      assert Seq(F.trees[y])[i] in Seq(F.trees[y]);
    }
    VertsCat(s, [f]);
    VertsOne(f);
    if F.nextId in IdSet(F.trees[k]) {
      AllIdsAt(F.trees, k, F.nextId);
    }
    ExpandUnique(s, f);
    ReplaceApart(F.trees, k, t);
    forall e | e in Seq(t)
      ensures Counted(e, G.any, G.counts, G.vertexOf, G.nextId)
    {
      if e != f {
        assert e in s;
      }
    }
    ReplaceTallied(F.trees, k, t, F.any, F.counts, F.vertexOf, F.nextId, G.vertexOf, G.nextId);
    assert t.Node?;
    ExtendedLoose(F, G, k, t);
  }

  /** Tree `k` replaced by a valid tree of distinct, counted occurrences,
      apart from the others, that keeps every occurrence of tree `k`, with
      identifiers possibly added. */
  lemma ExtendedLoose(F: Layout, G: Layout, k: int, t: Tree)
    requires 0 <= k < |F.trees| && TourTree.Valid(t) && t.Node? && Unique(Seq(t))
    requires G == F.(trees := F.trees[k := t], vertexOf := G.vertexOf, nextId := G.nextId)
    requires IdsApart(G.trees) && Tallied(G.trees, G.any, G.counts, G.vertexOf, G.nextId)
    requires AllIds(F.trees) <= AllIds(G.trees)
    requires forall id | id in F.vertexOf :: id in G.vertexOf && G.vertexOf[id] == F.vertexOf[id]
    requires forall id | id in G.vertexOf :: id < G.nextId
    requires Loose(F)
    ensures Loose(G)
  {
  }

  /** Dropping the last tree, which no vertex points into. */
  lemma DropLoose(F: Layout)
    requires Loose(F) && |F.trees| >= 1
    requires forall v | 0 <= v < F.n :: F.any[v] !in IdSet(F.trees[|F.trees| - 1])
    ensures Loose(F.(trees := F.trees[..|F.trees| - 1]))
    ensures AllIds(F.trees[..|F.trees| - 1]) == AllIds(F.trees) - IdSet(F.trees[|F.trees| - 1])
  {
    var ts := F.trees;
    var G := ts[..|ts| - 1];
    forall id | id in AllIds(G)
      ensures id in AllIds(ts) - IdSet(ts[|ts| - 1])
    {
      var x := Owner(G, id);
      AllIdsAt(ts, x, id);
      assert IdSet(ts[x]) !! IdSet(ts[|ts| - 1]);
    }
    forall id | id in AllIds(ts) - IdSet(ts[|ts| - 1])
      ensures id in AllIds(G)
    {
      AllIdsInit(ts, id);
    }
    assert forall x | 0 <= x < |G| :: G[x] == ts[x];
  }

  /** Trees that only differ in their counters, counted again under new
      counts and a new `any`: what `changeAny` and the counter updates
      leave behind. */
  lemma ReshapeLoose(F: Layout, G: Layout)
    requires Loose(F)
    requires G.n == F.n && G.vertexOf == F.vertexOf && G.nextId == F.nextId
    requires |G.any| == F.n && |G.counts| == F.n && |G.trees| == |F.trees|
    requires forall k | 0 <= k < |F.trees| :: TourTree.Valid(G.trees[k]) && Skel(Seq(G.trees[k])) == Skel(Seq(F.trees[k]))
    requires Tallied(G.trees, G.any, G.counts, G.vertexOf, G.nextId)
    requires forall v | 0 <= v < F.n :: G.any[v] in AllIds(F.trees) && G.any[v] in F.vertexOf && F.vertexOf[G.any[v]] == v
    ensures Loose(G) && AllIds(G.trees) == AllIds(F.trees)
    ensures forall k | 0 <= k < |F.trees| :: IdSet(G.trees[k]) == IdSet(F.trees[k]) && VertSet(G.trees[k]) == VertSet(F.trees[k])
  {
    forall k | 0 <= k < |F.trees|
      ensures IdSet(G.trees[k]) == IdSet(F.trees[k]) && VertSet(G.trees[k]) == VertSet(F.trees[k])
      ensures Unique(Seq(G.trees[k])) && G.trees[k].Node?
    {
      SkelSets(Seq(F.trees[k]), Seq(G.trees[k]));
      SkelUnique(Seq(F.trees[k]), Seq(G.trees[k]));
      assert |Seq(G.trees[k])| == |Skel(Seq(G.trees[k]))|;
    }
    forall id | id in AllIds(G.trees)
      ensures id in AllIds(F.trees)
    {
      var x := Owner(G.trees, id);
      AllIdsAt(F.trees, x, id);
    }
    forall id | id in AllIds(F.trees)
      ensures id in AllIds(G.trees)
    {
      var x := Owner(F.trees, id);
      AllIdsAt(G.trees, x, id);
    }
  }

  /** A sound forest whose trees only changed their counters is sound, with
      the same tree edges. */
  lemma Reshape(F: Layout, G: Layout)
    requires Sound(F) && Loose(G)
    requires G.n == F.n && G.mate == F.mate && G.links == F.links && G.vertexOf == F.vertexOf
    requires |G.trees| == |F.trees|
    requires forall k | 0 <= k < |F.trees| :: Skel(Seq(G.trees[k])) == Skel(Seq(F.trees[k]))
    ensures Sound(G) && Ends(G) == Ends(F)
  {
    ReshapeTours(F.trees, G.trees, F.mate);
    SameSetsApart(F.trees, G.trees);
    forall id | id in AllIds(F.trees)
      ensures id in AllIds(G.trees)
    {
      var x := Owner(F.trees, id);
      AllIdsAt(G.trees, x, id);
    }
  }

  lemma ReshapeTours(ts: seq<Tree>, us: seq<Tree>, mate: map<nat, nat>)
    requires |us| == |ts| && Tours(ts, mate)
    requires forall k | 0 <= k < |us| :: TourTree.Valid(us[k])
    requires forall k | 0 <= k < |ts| :: Skel(Seq(us[k])) == Skel(Seq(ts[k]))
    ensures Tours(us, mate)
    ensures forall k | 0 <= k < |ts| :: IdSet(us[k]) == IdSet(ts[k]) && VertSet(us[k]) == VertSet(ts[k])
  {
    forall k | 0 <= k < |ts|
      ensures Tour(Seq(us[k]), mate)
      ensures IdSet(us[k]) == IdSet(ts[k]) && VertSet(us[k]) == VertSet(ts[k])
    {
      SkelTour(Seq(ts[k]), Seq(us[k]), mate);
    }
  }

  /** Trees with the same identities and vertices, tree by tree, are apart
      when the first ones are. */
  lemma SameSetsApart(ts: seq<Tree>, us: seq<Tree>)
    requires |us| == |ts| && Apart(ts)
    requires forall k | 0 <= k < |ts| :: IdSet(us[k]) == IdSet(ts[k]) && VertSet(us[k]) == VertSet(ts[k])
    ensures Apart(us)
  {
  }

  /** The counter of a vertex's `any` occurrence holds the vertex's count. */
  lemma AnyEdges(F: Layout, v: nat)
    requires Loose(F) && v < F.n
    ensures EdgesOf(F.trees[TreeOf(F.trees, F.any[v])], F.any[v]) == F.counts[v]
  {
    var k := TreeOf(F.trees, F.any[v]);
    var c := Locate(F.trees[k], F.any[v]);
    CursorAt(c);
    assert Seq(F.trees[k])[Pos(c)] in Seq(F.trees[k]);
  }

  /** Replacing a tree by one with the same identities and vertices. */
  lemma ShapeReplace(ts: seq<Tree>, k: int, t: Tree)
    requires 0 <= k < |ts| && Skel(Seq(t)) == Skel(Seq(ts[k]))
    ensures Shape(ts[k := t]) == Shape(ts)
  {
    assert forall j | 0 <= j < |ts| :: Shape(ts[k := t])[j] == Shape(ts)[j];
  }

  lemma RecountTallied(F: Layout, v: nat, k: int, t: Tree, c: int)
    requires Loose(F) && v < F.n && k == TreeOf(F.trees, F.any[v])
    requires Seq(t) == Bumped(F.trees[k], F.any[v], c)
    ensures Tallied(F.trees[k := t], F.any, F.counts[v := c], F.vertexOf, F.nextId)
    ensures Skel(Seq(t)) == Skel(Seq(F.trees[k]))
  {
    Recount(F.trees, F.any, F.counts, F.vertexOf, F.nextId, v, c);
    Fix(F.trees, {F.any[v]}, F.any, F.counts[v := c], F.vertexOf, F.nextId, k, F.any[v], c, t);
    TalliedNone(F.trees[k := t], F.any, F.counts[v := c], F.vertexOf, F.nextId);
  }

  /** Setting the count of `v`, and with it the counter of its `any`
      occurrence, to `c`: `changeEdges` and the updates by one. */
  lemma Recounted(F: Layout, G: Layout, v: nat, k: int, t: Tree, c: int)
    requires v < F.n && Loose(F) && k == TreeOf(F.trees, F.any[v])
    requires TourTree.Valid(t) && Seq(t) == Bumped(F.trees[k], F.any[v], c)
    requires G == F.(trees := F.trees[k := t], counts := F.counts[v := c])
    ensures Loose(G) && Shape(G.trees) == Shape(F.trees)
  {
    RecountTallied(F, v, k, t, c);
    ReshapeLoose(F, G);
    ShapeReplace(F.trees, k, t);
  }

  /** Pointing `any[v]` at another occurrence of `v` while its count is 0
      disturbs no counter. */
  lemma Repointed(F: Layout, v: nat, e: nat)
    requires Loose(F) && v < F.n && F.counts[v] == 0
    requires e in AllIds(F.trees) && e in F.vertexOf && F.vertexOf[e] == v
    ensures Loose(F.(any := F.any[v := e]))
  {
    var any := F.any[v := e];
    forall k, x | 0 <= k < |F.trees| && x in Seq(F.trees[k])
      ensures Counted(x, any, F.counts, F.vertexOf, F.nextId)
    {
      assert Counted(x, F.any, F.counts, F.vertexOf, F.nextId);
    }
  }

  /** A forest whose trees kept their identities and vertices is sound
      when the forest it came from is, with the same tree edges. */
  lemma ShapeSound(F: Layout, G: Layout)
    requires Sound(F) && Loose(G) && Shape(G.trees) == Shape(F.trees)
    requires G.n == F.n && G.mate == F.mate && G.links == F.links && G.vertexOf == F.vertexOf
    ensures Sound(G) && Ends(G) == Ends(F)
  {
    forall k | 0 <= k < |F.trees|
      ensures Skel(Seq(G.trees[k])) == Skel(Seq(F.trees[k]))
    {
      assert Shape(G.trees)[k] == Shape(F.trees)[k];
    }
    Reshape(F, G);
  }

  /** A tree replaced by one holding the same sequence. */
  lemma SameLoose(F: Layout, j: int, t: Tree)
    requires Loose(F) && 0 <= j < |F.trees|
    requires TourTree.Valid(t) && Seq(t) == Seq(F.trees[j])
    ensures Loose(F.(trees := F.trees[j := t]))
    ensures AllIds(F.trees[j := t]) == AllIds(F.trees)
    ensures Shape(F.trees[j := t]) == Shape(F.trees)
  {
    var s := Seq(F.trees[j]);
    assert Rotated(s, 0) == s;
    RotateLoose(F, j, 0, t);
    assert forall h | 0 <= h < |F.trees| :: Shape(F.trees[j := t])[h] == Shape(F.trees)[h];
  }

  /** A vertex's tour read from occurrence `p` and, unless it is a lone
      occurrence, given a new occurrence `id` of the same vertex at its end:
      `makeRoot` followed by `expand`. */
  ghost function Opened(s: seq<Entry>, p: int, id: nat): seq<Entry>
    requires 0 <= p < |s|
  {
    Expanded(Rotated(s, p), Entry(id, s[p].v, 0))
  }

  /** The identities handed out so far are below the counter. */
  lemma IdsBelow(F: Layout)
    requires Loose(F)
    ensures forall id | id in AllIds(F.trees) :: id < F.nextId
  {
    forall id | id in AllIds(F.trees)
      ensures id < F.nextId
    {
      var y := Owner(F.trees, id);
      var i := IndexOf(Seq(F.trees[y]), id);
      assert Seq(F.trees[y])[i] in Seq(F.trees[y]);
    }
  }

  lemma OpenedSets(s: seq<Entry>, p: int, id: nat)
    requires 0 <= p < |s| && id !in IdsOf(s)
    ensures var a := Opened(s, p, id);
      && |a| >= 1 && Verts(a) == Verts(s)
      && IdsOf(a) == IdsOf(s) + (if |s| == 1 then {} else {id})
      && a[|a| - 1].v == s[p].v
      && (|s| == 1 ==> a[|a| - 1].id == s[0].id)
      && (|s| != 1 ==> a[|a| - 1].id == id)
  {
    RotatedSets(s, p);
    RotatedAt(s, p);
    var f := Entry(id, s[p].v, 0);
    if |s| != 1 {
      VertsCat(Rotated(s, p), [f]);
      VertsOne(f);
      VertsAt(Rotated(s, p), 0);
    }
  }

  lemma OpenedTour(s: seq<Entry>, p: int, id: nat, mate: map<nat, nat>)
    requires Tour(s, mate) && Involution(mate) && 0 <= p < |s| && id !in mate && id !in IdsOf(s)
    ensures Open(Opened(s, p, id), mate)
  {
    Rotation(s, p, mate);
    RotatedAt(s, p);
    ExpandOpen(Rotated(s, p), Entry(id, s[p].v, 0), mate);
  }

  /** The two halves of `link`: the tours of `v` and `u`, opened, keep their
      vertices apart, and their last occurrences are fresh. */
  lemma {:induction false} LinkSets(sv: seq<Entry>, su: seq<Entry>, pv: int, pu: int, nextId: nat)
    returns (a: seq<Entry>, b: seq<Entry>, l: nat, r: nat)
    requires 0 <= pv < |sv| && 0 <= pu < |su|
    requires IdsOf(sv) !! IdsOf(su) && Verts(sv) !! Verts(su)
    requires forall id | id in IdsOf(sv) + IdsOf(su) :: id < nextId
    ensures a == Opened(sv, pv, nextId) && b == Opened(su, pu, nextId + (if |sv| == 1 then 0 else 1))
    ensures |a| >= 1 && |b| >= 1 && l == a[|a| - 1].id && r == b[|b| - 1].id && l != r
    ensures IdsOf(a) !! IdsOf(b) && Verts(a) !! Verts(b)
    ensures IdsOf(a + b) == IdsOf(sv) + IdsOf(su) + (if |sv| == 1 then {} else {nextId})
      + (if |su| == 1 then {} else {nextId + (if |sv| == 1 then 0 else 1)})
    ensures Verts(a + b) == Verts(sv) + Verts(su)
    ensures a[|a| - 1].v == sv[pv].v && b[|b| - 1].v == su[pu].v
    ensures l in IdsOf(a + b) && r in IdsOf(a + b)
    ensures l == nextId || (|sv| == 1 && l == sv[0].id)
    ensures r == nextId + 1 || r == nextId || (|su| == 1 && r == su[0].id)
  {
    var n1 := nextId + (if |sv| == 1 then 0 else 1);
    a, b := Opened(sv, pv, nextId), Opened(su, pu, n1);
    assert nextId !in IdsOf(sv) + IdsOf(su) && n1 !in IdsOf(sv) + IdsOf(su);
    OpenedSets(sv, pv, nextId);
    OpenedSets(su, pu, n1);
    l, r := a[|a| - 1].id, b[|b| - 1].id;
    VertsAt(sv, 0);
    VertsAt(su, 0);
    var X: set<nat> := if |sv| == 1 then {} else {nextId};
    var Y: set<nat> := if |su| == 1 then {} else {n1};
    VertsCat(a, b);
    assert IdsOf(a + b) == IdsOf(sv) + IdsOf(su) + X + Y;
    VertsAt(a, |a| - 1);
    VertsAt(b, |b| - 1);
  }

  /** Both tours of `link`, opened, are ready to be joined. */
  lemma LinkOpens(sv: seq<Entry>, su: seq<Entry>, pv: int, pu: int, mate: map<nat, nat>, nextId: nat, a: seq<Entry>, b: seq<Entry>)
    requires Tour(sv, mate) && Tour(su, mate) && Involution(mate)
    requires 0 <= pv < |sv| && 0 <= pu < |su|
    requires IdsOf(sv) !! IdsOf(su)
    requires forall id | id in IdsOf(sv) + IdsOf(su) :: id < nextId
    requires forall id | id in mate :: id < nextId
    requires a == Opened(sv, pv, nextId) && b == Opened(su, pu, nextId + (if |sv| == 1 then 0 else 1))
    ensures Open(a, mate) && Open(b, mate)
  {
    var n1 := nextId + (if |sv| == 1 then 0 else 1);
    assert nextId !in IdsOf(sv) + IdsOf(su) && n1 !in IdsOf(sv) + IdsOf(su);
    assert nextId !in mate && n1 !in mate;
    OpenedTour(sv, pv, nextId, mate);
    OpenedTour(su, pu, n1, mate);
  }

  /** The opened tours of `link`, concatenated, form a tour whose new pair
      of mates is their two last occurrences. */
  lemma LinkJoin(a: seq<Entry>, b: seq<Entry>, mate: map<nat, nat>)
    requires Open(a, mate) && Open(b, mate) && Involution(mate)
    requires IdsOf(a) !! IdsOf(b) && Verts(a) !! Verts(b)
    ensures a[|a| - 1].id !in mate && b[|b| - 1].id !in mate
    ensures var m := Joined(mate, a[|a| - 1].id, b[|b| - 1].id);
      Tour(a + b, m) && Involution(m)
  {
    Join(a, b, mate);
  }

  /** What `link` needs to know about the two trees it joins: two tours,
      apart, of identities handed out already. */
  ghost predicate Joinable(F: Layout, kv: int, ku: int)
  {
    && 0 <= kv < |F.trees| && 0 <= ku < |F.trees| && kv != ku
    && Tour(Seq(F.trees[kv]), F.mate) && Tour(Seq(F.trees[ku]), F.mate) && Involution(F.mate)
    && IdSet(F.trees[kv]) !! IdSet(F.trees[ku]) && VertSet(F.trees[kv]) !! VertSet(F.trees[ku])
    && (forall id | id in IdSet(F.trees[kv]) + IdSet(F.trees[ku]) :: id < F.nextId)
    && (forall id | id in F.mate :: id < F.nextId)
  }

  /** Any two trees of a sound forest are joinable. */
  lemma LinkPrep(F: Layout, kv: int, ku: int)
    requires Sound(F) && 0 <= kv < |F.trees| && 0 <= ku < |F.trees| && kv != ku
    ensures Joinable(F, kv, ku)
  {
    IdsBelow(F);
    forall id | id in IdSet(F.trees[kv]) + IdSet(F.trees[ku])
      ensures id < F.nextId
    {
      if id in IdSet(F.trees[kv]) {
        AllIdsAt(F.trees, kv, id);
      } else {
        AllIdsAt(F.trees, ku, id);
      }
    }
  }

  /** The two tours `link` has made ready, `a` for `v` and `b` for `u`, as
      sets: apart from each other, and between them the occurrences of both
      trees and fresh ones only. */
  ghost predicate LinkParts(F: Layout, kv: int, ku: int, a: seq<Entry>, b: seq<Entry>)
  {
    && 0 <= kv < |F.trees| && 0 <= ku < |F.trees| && kv != ku && |a| >= 1 && |b| >= 1
    && IdsOf(a) !! IdsOf(b) && Verts(a) !! Verts(b)
    && a[|a| - 1].id in IdsOf(a + b) && b[|b| - 1].id in IdsOf(a + b)
    && IdSet(F.trees[kv]) + IdSet(F.trees[ku]) <= IdsOf(a + b)
    && (forall id | id in IdsOf(a + b) - (IdSet(F.trees[kv]) + IdSet(F.trees[ku])) :: id >= F.nextId)
    && Verts(a + b) == VertSet(F.trees[kv]) + VertSet(F.trees[ku])
  }

  /** ... and as tours: both open, ready to be joined. */
  ghost predicate LinkReady(F: Layout, kv: int, ku: int, a: seq<Entry>, b: seq<Entry>)
  {
    Open(a, F.mate) && Open(b, F.mate) && Involution(F.mate) && LinkParts(F, kv, ku, a, b)
  }

  lemma LinkHalvesSets(F: Layout, kv: int, ku: int, pv: int, pu: int, a: seq<Entry>, b: seq<Entry>)
    requires 0 <= kv < |F.trees| && 0 <= ku < |F.trees| && kv != ku
    requires IdSet(F.trees[kv]) !! IdSet(F.trees[ku]) && VertSet(F.trees[kv]) !! VertSet(F.trees[ku])
    requires forall id | id in IdSet(F.trees[kv]) + IdSet(F.trees[ku]) :: id < F.nextId
    requires 0 <= pv < |Seq(F.trees[kv])| && 0 <= pu < |Seq(F.trees[ku])|
    requires a == Opened(Seq(F.trees[kv]), pv, F.nextId)
    requires b == Opened(Seq(F.trees[ku]), pu, F.nextId + (if |Seq(F.trees[kv])| == 1 then 0 else 1))
    ensures LinkParts(F, kv, ku, a, b)
    ensures a[|a| - 1].v == Seq(F.trees[kv])[pv].v && b[|b| - 1].v == Seq(F.trees[ku])[pu].v
  {
    var sv, su := Seq(F.trees[kv]), Seq(F.trees[ku]);
    var _, _, _, _ := LinkSets(sv, su, pv, pu, F.nextId);
  }

  /** `makeRoot` and `expand` on both ends of a new edge make the two
      tours ready to be joined. */
  lemma LinkHalves(F: Layout, kv: int, ku: int, pv: int, pu: int, a: seq<Entry>, b: seq<Entry>)
    requires Joinable(F, kv, ku)
    requires 0 <= pv < |Seq(F.trees[kv])| && 0 <= pu < |Seq(F.trees[ku])|
    requires a == Opened(Seq(F.trees[kv]), pv, F.nextId)
    requires b == Opened(Seq(F.trees[ku]), pu, F.nextId + (if |Seq(F.trees[kv])| == 1 then 0 else 1))
    ensures LinkReady(F, kv, ku, a, b)
    ensures a[|a| - 1].v == Seq(F.trees[kv])[pv].v && b[|b| - 1].v == Seq(F.trees[ku])[pu].v
  {
    LinkHalvesSets(F, kv, ku, pv, pu, a, b);
    LinkHalvesOpen(F, kv, ku, pv, pu, a, b);
  }

  lemma LinkHalvesOpen(F: Layout, kv: int, ku: int, pv: int, pu: int, a: seq<Entry>, b: seq<Entry>)
    requires Joinable(F, kv, ku)
    requires 0 <= pv < |Seq(F.trees[kv])| && 0 <= pu < |Seq(F.trees[ku])|
    requires a == Opened(Seq(F.trees[kv]), pv, F.nextId)
    requires b == Opened(Seq(F.trees[ku]), pu, F.nextId + (if |Seq(F.trees[kv])| == 1 then 0 else 1))
    ensures Open(a, F.mate) && Open(b, F.mate)
  {
    var sv, su := Seq(F.trees[kv]), Seq(F.trees[ku]);
    assert IdsOf(sv) == IdSet(F.trees[kv]) && IdsOf(su) == IdSet(F.trees[ku]);
    LinkOpens(sv, su, pv, pu, F.mate, F.nextId, a, b);
  }

  /** What `link` does to the layout, given the two tours it made ready:
      trees `kv` and `ku` are replaced by `t`, holding `a` then `b`, in the
      place of `kv`; the last occurrences of `a` and `b` become mates and the
      first of them the handle of the new edge. */
  ghost predicate LinkStep(F: Layout, G: Layout, kv: int, ku: int, a: seq<Entry>, b: seq<Entry>, t: Tree)
  {
    && 0 <= kv < |F.trees| && 0 <= ku < |F.trees| && kv != ku
    && |a| >= 1 && |b| >= 1
    && Seq(t) == a + b
    && G.mate == Joined(F.mate, a[|a| - 1].id, b[|b| - 1].id)
    && G.links == F.links[a[|a| - 1].id := b[|b| - 1].id]
    && G.trees == Drop(F.trees[kv := t], ku)
    && G.n == F.n
    && (forall id | id in F.vertexOf :: id in G.vertexOf && G.vertexOf[id] == F.vertexOf[id])
  }

  /** Where the joined tree sits among the trees after `link`. */
  function LinkSlot(kv: int, ku: int): int
  {
    if kv < ku then kv else kv - 1
  }

  lemma LinkTour(F: Layout, G: Layout, kv: int, ku: int, a: seq<Entry>, b: seq<Entry>, t: Tree)
    requires LinkStep(F, G, kv, ku, a, b, t) && LinkReady(F, kv, ku, a, b)
    ensures Tour(Seq(t), G.mate) && Involution(G.mate)
    ensures a[|a| - 1].id !in F.mate && b[|b| - 1].id !in F.mate && a[|a| - 1].id != b[|b| - 1].id
    ensures 0 <= LinkSlot(kv, ku) < |G.trees| && G.trees[LinkSlot(kv, ku)] == t
  {
    LinkJoin(a, b, F.mate);
    VertsAt(a, |a| - 1);
    VertsAt(b, |b| - 1);
  }

  /** The trees `link` leaves alone keep their tours under the new mates. */
  lemma LinkTours(F: Layout, G: Layout, kv: int, ku: int, t: Tree, l: nat, r: nat)
    requires 0 <= kv < |F.trees| && 0 <= ku < |F.trees| && kv != ku
    requires G.trees == Drop(F.trees[kv := t], ku) && G.mate == Joined(F.mate, l, r)
    requires Tours(F.trees, F.mate) && Tour(Seq(t), G.mate)
    requires IdsApart(G.trees) && l in IdSet(t) && r in IdSet(t)
    requires forall k | 0 <= k < |G.trees| :: TourTree.Valid(G.trees[k])
    ensures Tours(G.trees, G.mate)
  {
    var j := LinkSlot(kv, ku);
    forall k | 0 <= k < |G.trees|
      ensures TourTree.Valid(G.trees[k]) && Tour(Seq(G.trees[k]), G.mate)
    {
      if k != j {
        var h := if k < ku then k else k + 1;
        assert G.trees[k] == F.trees[h] && G.trees[j] == t;
        assert IdSet(G.trees[k]) !! IdSet(G.trees[j]);
        MateLocal(Seq(F.trees[h]), F.mate, G.mate);
      }
    }
  }

  /** The trees after `link` share no vertex. */
  lemma LinkApart(F: Layout, G: Layout, kv: int, ku: int, t: Tree)
    requires 0 <= kv < |F.trees| && 0 <= ku < |F.trees| && kv != ku
    requires G.trees == Drop(F.trees[kv := t], ku) && Apart(F.trees) && IdsApart(G.trees)
    requires VertSet(t) == VertSet(F.trees[kv]) + VertSet(F.trees[ku])
    ensures Apart(G.trees)
  {
    var j := LinkSlot(kv, ku);
    forall x, y | 0 <= x < |G.trees| && 0 <= y < |G.trees| && x != y
      ensures VertSet(G.trees[x]) !! VertSet(G.trees[y])
    {
      var hx := if x < ku then x else x + 1;
      var hy := if y < ku then y else y + 1;
      if x == j {
        assert VertSet(F.trees[hy]) !! VertSet(F.trees[kv]) && VertSet(F.trees[hy]) !! VertSet(F.trees[ku]);
      } else if y == j {
        assert VertSet(F.trees[hx]) !! VertSet(F.trees[kv]) && VertSet(F.trees[hx]) !! VertSet(F.trees[ku]);
      } else {
        assert G.trees[x] == F.trees[hx] && G.trees[y] == F.trees[hy];
      }
    }
  }

  /** No occurrence is lost by `link`. */
  lemma LinkIds(F: Layout, G: Layout, kv: int, ku: int, t: Tree)
    requires 0 <= kv < |F.trees| && 0 <= ku < |F.trees| && kv != ku
    requires G.trees == Drop(F.trees[kv := t], ku)
    requires IdSet(F.trees[kv]) + IdSet(F.trees[ku]) <= IdSet(t)
    ensures AllIds(F.trees) + IdSet(t) <= AllIds(G.trees)
  {
    var j := LinkSlot(kv, ku);
    assert G.trees[j] == t;
    forall id | id in AllIds(F.trees) + IdSet(t)
      ensures id in AllIds(G.trees)
    {
      if id in IdSet(t) {
        AllIdsAt(G.trees, j, id);
      } else {
        var h := Owner(F.trees, id);
        if h == kv || h == ku {
          AllIdsAt(G.trees, j, id);
        } else {
          var k := if h < ku then h else h - 1;
          assert G.trees[k] == F.trees[h];
          AllIdsAt(G.trees, k, id);
        }
      }
    }
  }

  /** A new pair of mates with a new handle keeps every pair handled once. */
  lemma LinkLinked(links: map<nat, nat>, mate: map<nat, nat>, l: nat, r: nat)
    requires Linked(links, mate) && Involution(mate) && l !in mate && r !in mate && l != r
    ensures Linked(links[l := r], Joined(mate, l, r))
  {
  }

  /** The tree edges after `link`: those before and the new one. */
  lemma LinkEnds(F: Layout, G: Layout, l: nat, r: nat)
    requires G.links == F.links[l := r] && l !in F.links
    requires forall x | x in F.links :: x in F.vertexOf && F.links[x] in F.vertexOf
    requires forall id | id in F.vertexOf :: id in G.vertexOf && G.vertexOf[id] == F.vertexOf[id]
    requires l in G.vertexOf && r in G.vertexOf
    ensures Ends(G) == Ends(F)[l := (G.vertexOf[l], G.vertexOf[r])]
  {
  }

  /** The handles of a sound forest are mates and recorded occurrences. */
  lemma LinksRecorded(F: Layout)
    requires Sound(F)
    ensures Linked(F.links, F.mate) && Involution(F.mate)
    ensures forall id | id in F.mate :: id in AllIds(F.trees)
    ensures forall x | x in F.links :: x in F.mate && x in F.vertexOf && F.links[x] in F.vertexOf
  {
    forall x | x in F.links
      ensures x in F.vertexOf && F.links[x] in F.vertexOf
    {
      var _ := LinkHome(F, x);
    }
  }

  /** Every occurrence of a loose forest is recorded with its vertex. */
  lemma EntryRecorded(G: Layout, j: int, e: Entry)
    requires Loose(G) && 0 <= j < |G.trees| && e in Seq(G.trees[j])
    ensures e.id in G.vertexOf && G.vertexOf[e.id] == e.v
  {
  }

  /** `link` leaves a sound forest, whose tree edges are those before and
      the new edge between the vertices of the two joined occurrences. */
  lemma LinkSound(F: Layout, G: Layout, kv: int, ku: int, a: seq<Entry>, b: seq<Entry>, t: Tree)
    requires Sound(F) && Loose(G) && LinkStep(F, G, kv, ku, a, b, t) && LinkReady(F, kv, ku, a, b)
    ensures Sound(G) && a[|a| - 1].id !in F.links
    ensures Ends(G) == Ends(F)[a[|a| - 1].id := (a[|a| - 1].v, b[|b| - 1].v)]
  {
    var l, r := a[|a| - 1].id, b[|b| - 1].id;
    LinkTour(F, G, kv, ku, a, b, t);
    LinkShapes(F, G, kv, ku, a, b, t);
    LinksRecorded(F);
    LinkLinked(F.links, F.mate, l, r);
    LinkNewEnds(F, G, kv, ku, a, b, t);
  }

  /** After `link` every tree is a tour, no vertex is in two trees and
      every mate is an occurrence. */
  lemma LinkShapes(F: Layout, G: Layout, kv: int, ku: int, a: seq<Entry>, b: seq<Entry>, t: Tree)
    requires Sound(F) && Loose(G) && LinkStep(F, G, kv, ku, a, b, t) && LinkReady(F, kv, ku, a, b)
    ensures Tours(G.trees, G.mate) && Apart(G.trees)
    ensures forall id | id in G.mate :: id in AllIds(G.trees)
  {
    var l, r := a[|a| - 1].id, b[|b| - 1].id;
    LinkTour(F, G, kv, ku, a, b, t);
    LinkTours(F, G, kv, ku, t, l, r);
    LinkApart(F, G, kv, ku, t);
    LinkIds(F, G, kv, ku, t);
    LinksRecorded(F);
  }

  /** The tree edges after `link`, the joined tree in its slot. */
  lemma LinkNewEnds(F: Layout, G: Layout, kv: int, ku: int, a: seq<Entry>, b: seq<Entry>, t: Tree)
    requires LinkStep(F, G, kv, ku, a, b, t)
    requires 0 <= LinkSlot(kv, ku) < |G.trees| && G.trees[LinkSlot(kv, ku)] == t
    requires a[|a| - 1].id !in F.links
    requires forall x | x in F.links :: x in F.vertexOf && F.links[x] in F.vertexOf
    requires Loose(G)
    ensures Ends(G) == Ends(F)[a[|a| - 1].id := (a[|a| - 1].v, b[|b| - 1].v)]
  {
    var j := LinkSlot(kv, ku);
    assert a[|a| - 1] in Seq(t) && b[|b| - 1] in Seq(t) by {
      assert Seq(t)[|a| - 1] == a[|a| - 1] && Seq(t)[|a| + |b| - 1] == b[|b| - 1];
    }
    EntryRecorded(G, j, a[|a| - 1]);
    EntryRecorded(G, j, b[|b| - 1]);
    LinkEnds(F, G, a[|a| - 1].id, b[|b| - 1].id);
  }

  // ---------------------------------------------------------------------
  // cut

  /** The identities and vertices of every tree, in order: what moving
      counters around leaves alone. */
  ghost function Shape(ts: seq<Tree>): (r: seq<seq<(nat, nat)>>)
    ensures |r| == |ts| && forall j {:trigger r[j]} | 0 <= j < |ts| :: r[j] == Skel(Seq(ts[j]))
  {
    seq(|ts|, j requires 0 <= j < |ts| => Skel(Seq(ts[j])))
  }

  /** What `cut` does to the layout: the pair of mates at positions `p < q`
      of tree `k`, one of them the handle `l`, is taken out; tree `k` becomes
      the occurrences outside the pair and those between them are added as
      a last tree. The counters may have moved; no identity is handed out. */
  ghost predicate CutStep(F: Layout, G: Layout, k: int, p: int, q: int, l: nat)
  {
    && 0 <= k < |F.trees| && l in F.links
    && var s := Seq(F.trees[k]);
      && 0 <= p < q < |s|
      && ((s[p].id == l && s[q].id == F.links[l]) || (s[p].id == F.links[l] && s[q].id == l))
      && Shape(G.trees) == Shape(F.trees)[k := Skel(CutOuter(s, p, q))] + [Skel(CutInner(s, p, q))]
      && G.mate == F.mate - {l, F.links[l]}
      && G.links == F.links - {l}
      && G.n == F.n && G.vertexOf == F.vertexOf
  }

  /** The trees after `cut`, one by one. */
  lemma CutPieces(F: Layout, G: Layout, k: int, p: int, q: int, l: nat)
    requires CutStep(F, G, k, p, q, l)
    ensures |G.trees| == |F.trees| + 1
    ensures var s := Seq(F.trees[k]);
      && Skel(Seq(G.trees[k])) == Skel(CutOuter(s, p, q))
      && Skel(Seq(G.trees[|F.trees|])) == Skel(CutInner(s, p, q))
    ensures forall h | 0 <= h < |F.trees| && h != k :: Skel(Seq(G.trees[h])) == Skel(Seq(F.trees[h]))
  {
    var s := Seq(F.trees[k]);
    var sh := Shape(F.trees)[k := Skel(CutOuter(s, p, q))] + [Skel(CutInner(s, p, q))];
    assert |Shape(G.trees)| == |sh|;
    assert Shape(G.trees)[k] == sh[k];
    assert Shape(G.trees)[|F.trees|] == sh[|F.trees|];
    forall h | 0 <= h < |F.trees| && h != k
      ensures Skel(Seq(G.trees[h])) == Skel(Seq(F.trees[h]))
    {
      assert Shape(G.trees)[h] == sh[h];
    }
  }

  /** A handle and its mate, in either order, are mates. */
  lemma CutPair(links: map<nat, nat>, mate: map<nat, nat>, l: nat, x: nat, y: nat)
    requires Linked(links, mate) && Involution(mate) && l in links
    requires (x == l && y == links[l]) || (x == links[l] && y == l)
    ensures x in mate && mate[x] == y && {l, links[l]} == {x, y}
  {
  }

  /** The pair `cut` takes out is a pair of mates of a tour. */
  lemma CutPrep(F: Layout, G: Layout, k: int, p: int, q: int, l: nat)
    requires Sound(F) && CutStep(F, G, k, p, q, l)
    ensures var s := Seq(F.trees[k]);
      && Tour(s, F.mate) && Involution(F.mate)
      && s[p].id in F.mate && F.mate[s[p].id] == s[q].id
      && G.mate == F.mate - {s[p].id, s[q].id}
    ensures Tours(F.trees, F.mate) && Apart(F.trees)
    ensures forall id | id in F.mate :: id in AllIds(F.trees)
    ensures Linked(F.links, F.mate)
  {
    var s := Seq(F.trees[k]);
    CutPair(F.links, F.mate, l, s[p].id, s[q].id);
  }

  /** The two tours `cut` leaves, with their identities and vertices. */
  lemma CutShapes(s: seq<Entry>, mate: map<nat, nat>, p: int, q: int, o: seq<Entry>, i: seq<Entry>)
    requires Tour(s, mate) && Involution(mate)
    requires 0 <= p < q < |s| && s[p].id in mate && mate[s[p].id] == s[q].id
    requires Skel(o) == Skel(CutOuter(s, p, q)) && Skel(i) == Skel(CutInner(s, p, q))
    ensures var m := mate - {s[p].id, s[q].id}; Involution(m) && Tour(o, m) && Tour(i, m)
    ensures Verts(o) !! Verts(i) && Verts(o) + Verts(i) == Verts(s)
    ensures IdsOf(o) + IdsOf(i) <= IdsOf(s) && IdsOf(s) - {s[p].id, s[q].id} <= IdsOf(o) + IdsOf(i)
  {
    var m := mate - {s[p].id, s[q].id};
    Cut(s, mate, p, q);
    SkelTour(CutOuter(s, p, q), o, m);
    SkelTour(CutInner(s, p, q), i, m);
  }

  /** The trees `cut` leaves alone keep their tours without the pair. */
  lemma CutTours(F: Layout, G: Layout, k: int, x: nat, y: nat)
    requires 0 <= k < |F.trees| && |G.trees| == |F.trees| + 1 && G.mate == F.mate - {x, y}
    requires forall h | 0 <= h < |F.trees| && h != k :: Skel(Seq(G.trees[h])) == Skel(Seq(F.trees[h]))
    requires Tours(F.trees, F.mate) && Tour(Seq(G.trees[k]), G.mate) && Tour(Seq(G.trees[|F.trees|]), G.mate)
    requires IdsApart(F.trees) && x in IdSet(F.trees[k]) && y in IdSet(F.trees[k])
    requires forall h | 0 <= h < |G.trees| :: TourTree.Valid(G.trees[h])
    ensures Tours(G.trees, G.mate)
  {
    forall h | 0 <= h < |G.trees|
      ensures TourTree.Valid(G.trees[h]) && Tour(Seq(G.trees[h]), G.mate)
    {
      if h != k && h != |F.trees| {
        SkelTour(Seq(F.trees[h]), Seq(G.trees[h]), F.mate);
        assert IdSet(F.trees[h]) !! IdSet(F.trees[k]);
        MateLocal(Seq(G.trees[h]), F.mate, G.mate);
      }
    }
  }

  /** The trees after `cut` share no vertex. */
  lemma CutApart(F: Layout, G: Layout, k: int)
    requires 0 <= k < |F.trees| && |G.trees| == |F.trees| + 1
    requires forall h | 0 <= h < |F.trees| && h != k :: Skel(Seq(G.trees[h])) == Skel(Seq(F.trees[h]))
    requires Apart(F.trees) && IdsApart(G.trees)
    requires var O, I := G.trees[k], G.trees[|F.trees|];
      VertSet(O) !! VertSet(I) && VertSet(O) + VertSet(I) == VertSet(F.trees[k])
    ensures Apart(G.trees)
  {
    var n := |F.trees|;
    forall h | 0 <= h < n && h != k
      ensures VertSet(G.trees[h]) == VertSet(F.trees[h])
    {
      SkelSets(Seq(F.trees[h]), Seq(G.trees[h]));
    }
    forall x, y | 0 <= x < |G.trees| && 0 <= y < |G.trees| && x != y
      ensures VertSet(G.trees[x]) !! VertSet(G.trees[y])
    {
      if x != k && x != n {
        assert VertSet(F.trees[x]) !! VertSet(F.trees[k]);
      }
      if y != k && y != n {
        assert VertSet(F.trees[y]) !! VertSet(F.trees[k]);
      }
    }
  }

  /** `cut` loses no occurrence but the pair it takes out. */
  lemma CutKeepsIds(F: Layout, G: Layout, k: int, x: nat, y: nat)
    requires 0 <= k < |F.trees| && |G.trees| == |F.trees| + 1
    requires forall h | 0 <= h < |F.trees| && h != k :: Skel(Seq(G.trees[h])) == Skel(Seq(F.trees[h]))
    requires IdSet(F.trees[k]) - {x, y} <= IdSet(G.trees[k]) + IdSet(G.trees[|F.trees|])
    ensures AllIds(F.trees) - {x, y} <= AllIds(G.trees)
  {
    var n := |F.trees|;
    forall id | id in AllIds(F.trees) - {x, y}
      ensures id in AllIds(G.trees)
    {
      var h := Owner(F.trees, id);
      if h == k {
        assert id in IdSet(F.trees[k]) - {x, y};
        if id in IdSet(G.trees[k]) {
          AllIdsAt(G.trees, k, id);
        } else {
          AllIdsAt(G.trees, n, id);
        }
      } else {
        SkelSets(Seq(F.trees[h]), Seq(G.trees[h]));
        AllIdsAt(G.trees, h, id);
      }
    }
  }

  /** Taking a pair of mates out together with its handle keeps every
      other pair handled once. */
  lemma CutLinked(links: map<nat, nat>, mate: map<nat, nat>, l: nat)
    requires Linked(links, mate) && Involution(mate) && l in links
    ensures Linked(links - {l}, mate - {l, links[l]})
  {
  }

  /** The tree edges after `cut`: those before but the one cut. */
  lemma CutEnds(F: Layout, G: Layout, l: nat)
    requires G.links == F.links - {l} && G.vertexOf == F.vertexOf
    ensures Ends(G) == Ends(F) - {l}
  {
  }

  /** `cut` leaves a sound forest, whose tree edges are those before but
      the one cut. */
  lemma CutSound(F: Layout, G: Layout, k: int, p: int, q: int, l: nat)
    requires Sound(F) && Loose(G) && CutStep(F, G, k, p, q, l)
    ensures Sound(G) && Ends(G) == Ends(F) - {l}
  {
    var s := Seq(F.trees[k]);
    CutPrep(F, G, k, p, q, l);
    CutPieces(F, G, k, p, q, l);
    var x, y := s[p].id, s[q].id;
    CutShapes(s, F.mate, p, q, Seq(G.trees[k]), Seq(G.trees[|F.trees|]));
    VertsAt(s, p);
    VertsAt(s, q);
    CutTours(F, G, k, x, y);
    CutApart(F, G, k);
    CutKeepsIds(F, G, k, x, y);
    CutLinked(F.links, F.mate, l);
    CutEnds(F, G, l);
  }
}

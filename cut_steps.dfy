/**
 * The steps `cut` takes in EulerTourForest.java, on layouts: the two splits
 * around the pair of mates, which leave the tour in three pieces; the
 * removal of the earlier mate, after which the outer pieces are one tour;
 * and the removal of the later mate from the inner piece. Together they
 * make the `CutStep` of ForestSteps.
 */
module CutSteps {

  import opened TourTree
  import opened EulerTour
  import opened ForestTheory
  import opened ForestSteps

  /** Everything but the trees is as it was. */
  ghost predicate Kept(F: Layout, G: Layout)
  {
    && G.n == F.n && G.any == F.any && G.counts == F.counts && G.vertexOf == F.vertexOf
    && G.nextId == F.nextId && G.mate == F.mate && G.links == F.links
  }

  /** `split(e, true)` on tree `k`, `e` at place `i` of it: the tree keeps
      the occurrences up to `e`; the rest, when there is any (`rest`), is a
      new last tree. */
  ghost predicate SplitStep(F: Layout, G: Layout, k: int, id: nat, i: int, rest: bool)
  {
    && 0 <= k < |F.trees|
    && var s := Seq(F.trees[k]);
    && 0 <= i < |s| && s[i].id == id && (rest <==> i + 1 < |s|)
    && |G.trees| == |F.trees| + (if rest then 1 else 0)
    && Seq(G.trees[k]) == s[..i + 1]
    && (rest ==> Seq(G.trees[|F.trees|]) == s[i + 1..])
    && (forall j | 0 <= j < |F.trees| && j != k :: G.trees[j] == F.trees[j])
    && Kept(F, G)
  }

  /** The tour `s` of tree `k`, with mates at places `p < q`, after both
      splits: the occurrences up to the earlier mate stay at `k`, those after
      it up to the later mate are tree `i2`, and those after the later mate,
      if any, tree `i3`; the two new trees are the last ones. */
  ghost predicate Pieces(F: Layout, G: Layout, k: int, p: int, q: int, i2: int, i3: int)
  {
    && 0 <= k < |F.trees|
    && var s, N := Seq(F.trees[k]), |F.trees|;
    && 0 <= p < q < |s|
    && |G.trees| == N + (if q + 1 < |s| then 2 else 1)
    && N <= i2 < |G.trees| && (q + 1 < |s| ==> N <= i3 < |G.trees| && i3 != i2)
    && Seq(G.trees[k]) == s[..p + 1] && Seq(G.trees[i2]) == s[p + 1..q + 1]
    && (q + 1 < |s| ==> Seq(G.trees[i3]) == s[q + 1..])
    && (forall j | 0 <= j < N && j != k :: G.trees[j] == F.trees[j])
    && Kept(F, G)
  }

  /** After `split(a, true)`, another occurrence `b` of the tree is in the
      new last tree, or else still in tree `k`. */
  lemma SplitWhere(F: Layout, G: Layout, k: int, a: nat, i: int, rest: bool, b: nat)
    requires SplitStep(F, G, k, a, i, rest) && Loose(G) && b in IdSet(F.trees[k]) && b != a
    ensures b in AllIds(G.trees)
    ensures rest && TreeOf(G.trees, b) == |F.trees| ==> b in IdSet(G.trees[|F.trees|])
    ensures !(rest && TreeOf(G.trees, b) == |F.trees|) ==> b in IdSet(G.trees[k])
  {
    var s := Seq(F.trees[k]);
    var j := IndexOf(s, b);
    if j <= i {
      assert s[..i + 1][j] == s[j];
      VertsAt(s[..i + 1], j);
      TreeOfUnique(G.trees, b, k);
    } else {
      assert s[i + 1..][j - i - 1] == s[j];
      VertsAt(s[i + 1..], j - i - 1);
      TreeOfUnique(G.trees, b, |F.trees|);
    }
  }

  /** The handle comes first: the second split cuts the new last tree. */
  lemma PiecesRight(F: Layout, F1: Layout, F2: Layout, k: int, a: nat, b: nat, i: int, i': int, rest: bool,
                    p: int, q: int, i2: int, i3: int)
    requires SplitStep(F, F1, k, a, i, true) && SplitStep(F1, F2, |F.trees|, b, i', rest)
    requires p == i && q == i + 1 + i' && i2 == |F.trees| && i3 == |F.trees| + 1
    ensures Pieces(F, F2, k, p, q, i2, i3)
    ensures var s := Seq(F.trees[k]); s[p].id == a && s[q].id == b
  {
    var s, N := Seq(F.trees[k]), |F.trees|;
    assert Seq(F1.trees[N]) == s[i + 1..];
    assert Seq(F2.trees[N]) == s[i + 1..][..i' + 1] == s[i + 1..q + 1];
    assert s[i + 1..][i'] == s[q];
    if rest {
      assert Seq(F2.trees[N + 1]) == s[i + 1..][i' + 1..] == s[q + 1..];
    }
    assert F2.trees[k] == F1.trees[k];
  }

  /** The mate of the handle comes first: the first split keeps both mates
      in tree `k`, the second cuts it again. */
  lemma PiecesLeft(F: Layout, F1: Layout, F2: Layout, k: int, a: nat, b: nat, i: int, rest: bool, i': int,
                   p: int, q: int, i2: int, i3: int)
    requires SplitStep(F, F1, k, a, i, rest) && SplitStep(F1, F2, k, b, i', true)
    requires p == i' && q == i && i2 == |F2.trees| - 1 && i3 == |F.trees|
    ensures Pieces(F, F2, k, p, q, i2, i3)
    ensures var s := Seq(F.trees[k]); s[p].id == b && s[q].id == a
  {
    var s, N := Seq(F.trees[k]), |F.trees|;
    assert Seq(F1.trees[k]) == s[..i + 1];
    assert s[..i + 1][i'] == s[i'];
    assert Seq(F2.trees[k]) == s[..i + 1][..i' + 1] == s[..i' + 1];
    assert Seq(F2.trees[|F1.trees|]) == s[..i + 1][i' + 1..] == s[i' + 1..i + 1];
    if rest {
      assert F2.trees[N] == F1.trees[N];
    }
  }

  /** What the tour says about the neighbours of the mates at `p < q`: the
      occurrence after the later mate (cyclically) is of the earlier mate's
      vertex, and the one after the earlier mate of the later mate's. */
  ghost predicate CutNeighbours(s: seq<Entry>, p: int, q: int)
    requires 0 <= p < q < |s|
  {
    && (q + 1 < |s| ==> s[q + 1].v == s[p].v)
    && (q + 1 == |s| && p > 0 ==> s[0].v == s[p].v)
    && (p + 1 < q ==> s[p + 1].v == s[q].v)
  }

  lemma MatesNeighbours(s: seq<Entry>, mate: map<nat, nat>, p: int, q: int)
    requires Tour(s, mate) && Involution(mate)
    requires 0 <= p < q < |s| && s[p].id in mate && mate[s[p].id] == s[q].id
    ensures CutNeighbours(s, p, q)
  {
    assert s[q].id in mate && mate[s[q].id] == s[p].id;
    assert s[Next(s, q)].v == s[p].v;
    assert s[Next(s, p)].v == s[q].v;
  }

  /** The shape `cut` is heading for: tree `k` becomes the outer arc, and
      `inner` is added as the last tree. */
  ghost function CutShape(F: Layout, k: int, p: int, q: int, inner: seq<(nat, nat)>): (r: seq<seq<(nat, nat)>>)
    requires 0 <= k < |F.trees| && 0 <= p < q < |Seq(F.trees[k])|
    ensures |r| == |F.trees| + 1 && r[|F.trees|] == inner
  {
    Shape(F.trees)[k := Skel(CutOuter(Seq(F.trees[k]), p, q))] + [inner]
  }

  /** The shape of a forest, tree by tree. */
  lemma ShapeIs(ts: seq<Tree>, sh: seq<seq<(nat, nat)>>)
    requires |ts| == |sh| && forall j | 0 <= j < |ts| :: Skel(Seq(ts[j])) == sh[j]
    ensures Shape(ts) == sh
  {
  }

  /** After the earlier mate is gone: the outer arc is tree `k` and the inner
      pieces, with the later mate still at its end, the last tree. */
  ghost predicate OuterDone(F: Layout, G: Layout, k: int, p: int, q: int)
  {
    && 0 <= k < |F.trees| && 0 <= p < q < |Seq(F.trees[k])|
    && Shape(G.trees) == CutShape(F, k, p, q, Skel(Seq(F.trees[k])[p + 1..q + 1]))
    && G.n == F.n && G.counts == F.counts && G.vertexOf == F.vertexOf && G.nextId == F.nextId
    && G.mate == F.mate && G.links == F.links
  }

  /** The earlier mate starts the tour and there is nothing after the later
      one: the earlier mate alone is the outer arc, already in place. */
  lemma OuterAlone(F: Layout, G: Layout, k: int, p: int, q: int, i2: int, i3: int)
    requires Pieces(F, G, k, p, q, i2, i3) && p == 0 && q + 1 == |Seq(F.trees[k])|
    ensures OuterDone(F, G, k, p, q)
  {
    var s, N := Seq(F.trees[k]), |F.trees|;
    var sh := CutShape(F, k, p, q, Skel(s[p + 1..q + 1]));
    forall j | 0 <= j < |G.trees|
      ensures Skel(Seq(G.trees[j])) == sh[j]
    {
      if j == k {
        assert CutOuter(s, p, q) == [s[0]] == s[..1];
      }
    }
    ShapeIs(G.trees, sh);
  }

  /** The earlier mate starts the tour and occurrences follow the later one:
      after the `any` role moved off it, the lone earlier mate is dropped and
      the pieces after the later mate take its place. */
  lemma OuterMoved(F: Layout, G0: Layout, G1: Layout, k: int, p: int, q: int, i2: int, i3: int)
    requires Pieces(F, G0, k, p, q, i2, i3) && p == 0 && q + 1 < |Seq(F.trees[k])|
    requires Shape(G1.trees) == Shape(G0.trees)
    ensures OuterDone(F, F.(trees := Drop(G1.trees[k := G1.trees[i3]], i3)), k, p, q)
  {
    var s, N := Seq(F.trees[k]), |F.trees|;
    var ts := Drop(G1.trees[k := G1.trees[i3]], i3);
    var sh := CutShape(F, k, p, q, Skel(s[p + 1..q + 1]));
    forall j | 0 <= j < |ts|
      ensures Skel(Seq(ts[j])) == sh[j]
    {
      var o := if j < i3 then j else j + 1;
      var h := if o == k then i3 else o;
      assert ts[j] == G1.trees[h];
      assert Shape(G1.trees)[h] == Shape(G0.trees)[h];
      if j == k {
        assert CutOuter(s, p, q) == s[q + 1..];
      } else if j < N {
        assert Shape(F.trees)[j] == Skel(Seq(F.trees[j]));
      } else {
        assert h == i2;
      }
    }
    ShapeIs(ts, sh);
  }

  /** The earlier mate has occurrences before it: the pieces around the
      inner ones are merged back into tree `k`, in order. */
  lemma OuterMerged(F: Layout, G0: Layout, k: int, p: int, q: int, i2: int, i3: int, t: Tree)
    requires Pieces(F, G0, k, p, q, i2, i3) && q + 1 < |Seq(F.trees[k])|
    requires Seq(t) == Seq(G0.trees[k]) + Seq(G0.trees[i3])
    ensures var G1 := Drop(G0.trees[k := t], i3);
      && |G1| == |F.trees| + 1 && k < |F.trees|
      && Seq(G1[k]) == Seq(F.trees[k])[..p + 1] + Seq(F.trees[k])[q + 1..]
      && Seq(G1[|F.trees|]) == Seq(F.trees[k])[p + 1..q + 1]
      && forall j | 0 <= j < |F.trees| && j != k :: G1[j] == F.trees[j]
  {
    var G1 := Drop(G0.trees[k := t], i3);
    var N := |F.trees|;
    assert G1[N] == G0.trees[i2];
  }

  /** With nothing after the later mate there is nothing to merge: the
      pieces are already as `OuterMerged` leaves them. */
  lemma OuterKept(F: Layout, G0: Layout, k: int, p: int, q: int, i2: int, i3: int)
    requires Pieces(F, G0, k, p, q, i2, i3) && q + 1 == |Seq(F.trees[k])|
    ensures var G1 := G0.trees;
      && |G1| == |F.trees| + 1 && k < |F.trees|
      && Seq(G1[k]) == Seq(F.trees[k])[..p + 1] + Seq(F.trees[k])[q + 1..]
      && Seq(G1[|F.trees|]) == Seq(F.trees[k])[p + 1..q + 1]
      && forall j | 0 <= j < |F.trees| && j != k :: G1[j] == F.trees[j]
  {
    var s := Seq(F.trees[k]);
    assert s[q + 1..] == [];
    assert s[..p + 1] + s[q + 1..] == s[..p + 1];
  }

  /** The merged outer pieces hold the earlier mate at place `p`, and next
      to it (cyclically) an occurrence of the same vertex. */
  lemma OuterReady(F: Layout, ts: seq<Tree>, k: int, p: int, q: int)
    requires 0 <= k < |F.trees| && 0 < p < q < |Seq(F.trees[k])| && k < |ts|
    requires var s := Seq(F.trees[k]); Seq(ts[k]) == s[..p + 1] + s[q + 1..] && CutNeighbours(s, p, q)
    ensures var o, s := Seq(ts[k]), Seq(F.trees[k]);
      && p < |o| && o[p] == s[p] && |o| >= 2
      && (p + 1 < |o| ==> o[p + 1].v == o[p].v && o[p + 1].id == s[q + 1].id)
      && (p + 1 == |o| ==> o[0].v == o[p].v)
  {
    var s := Seq(F.trees[k]);
    assert (s[..p + 1] + s[q + 1..])[p] == s[p];
    if q + 1 < |s| {
      assert (s[..p + 1] + s[q + 1..])[p + 1] == s[q + 1];
    }
  }

  /** Removing the earlier mate, at place `p` of the merged outer pieces,
      leaves the outer arc. */
  lemma OuterRemoved(F: Layout, ts: seq<Tree>, G: Layout, k: int, p: int, q: int)
    requires 0 <= k < |F.trees| && 0 < p < q < |Seq(F.trees[k])| && |ts| == |F.trees| + 1
    requires var s := Seq(F.trees[k]);
      && Seq(ts[k]) == s[..p + 1] + s[q + 1..] && Seq(ts[|F.trees|]) == s[p + 1..q + 1]
      && forall j | 0 <= j < |F.trees| && j != k :: ts[j] == F.trees[j]
    requires p < |Shape(ts)[k]| && Shape(G.trees) == Shape(ts)[k := Without(Shape(ts)[k], p)]
    ensures Shape(G.trees) == CutShape(F, k, p, q, Skel(Seq(F.trees[k])[p + 1..q + 1]))
  {
    var s, o := Seq(F.trees[k]), Seq(ts[k]);
    SkelWithout(o, p);
    assert o[..p] + o[p + 1..] == s[..p] + s[q + 1..] == CutOuter(s, p, q);
    var sh := CutShape(F, k, p, q, Skel(s[p + 1..q + 1]));
    forall j | 0 <= j < |G.trees|
      ensures Skel(Seq(G.trees[j])) == sh[j]
    {
      assert Shape(G.trees)[j] == Shape(ts)[k := Without(Shape(ts)[k], p)][j];
    }
    ShapeIs(G.trees, sh);
  }

  /** Once the outer arc is in place, the inner pieces are the last tree
      and end with the later mate; their first occurrence, when there are
      others, is of the same vertex. */
  lemma InnerReady(F: Layout, G: Layout, k: int, p: int, q: int)
    requires OuterDone(F, G, k, p, q) && CutNeighbours(Seq(F.trees[k]), p, q)
    ensures |F.trees| == |G.trees| - 1 >= 0
    ensures var t, m := Seq(G.trees[|F.trees|]), q - p - 1;
      |t| == m + 1 && (|t| >= 2 ==> t[0].v == t[m].v)
  {
    var s, N := Seq(F.trees[k]), |F.trees|;
    var t := Seq(G.trees[N]);
    assert Shape(G.trees)[N] == Skel(s[p + 1..q + 1]);
    SkelShape(s[p + 1..q + 1], t);
    assert s[p + 1..q + 1][q - p - 1] == s[q];
    assert s[p + 1..q + 1][0] == s[p + 1];
  }

  /** Removing the later mate, the last occurrence of the inner pieces,
      leaves the inner arc; a lone later mate is the inner arc. */
  lemma InnerRemoved(F: Layout, sh: seq<seq<(nat, nat)>>, G3: Layout, k: int, p: int, q: int)
    requires 0 <= k < |F.trees| && 0 <= p < q < |Seq(F.trees[k])|
    requires sh == CutShape(F, k, p, q, Skel(Seq(F.trees[k])[p + 1..q + 1]))
    requires Shape(G3.trees) == CutOffShape(sh, |F.trees|, q - p - 1)
    ensures Shape(G3.trees) == CutShape(F, k, p, q, Skel(CutInner(Seq(F.trees[k]), p, q)))
  {
    var s, N := Seq(F.trees[k]), |F.trees|;
    var u := s[p + 1..q + 1];
    assert sh[N] == Skel(u);
    if |u| == 1 {
      assert u == [s[q]] == CutInner(s, p, q);
    } else {
      SkelWithout(u, q - p - 1);
      assert u[..q - p - 1] + u[q - p..] == s[p + 1..q] == CutInner(s, p, q);
    }
  }

  /** A skeleton without its place `i`. */
  ghost function Without(sk: seq<(nat, nat)>, i: int): seq<(nat, nat)>
    requires 0 <= i < |sk|
  {
    sk[..i] + sk[i + 1..]
  }

  /** The shape `sh` after `cutoff` of occurrence `m` of tree `N`, which
      leaves a lone occurrence in place. */
  ghost function CutOffShape(sh: seq<seq<(nat, nat)>>, N: int, m: int): seq<seq<(nat, nat)>>
    requires 0 <= N < |sh| && 0 <= m < |sh[N]|
  {
    sh[N := if |sh[N]| == 1 then sh[N] else Without(sh[N], m)]
  }

  lemma SkelWithout(o: seq<Entry>, i: int)
    requires 0 <= i < |o|
    ensures Skel(o[..i] + o[i + 1..]) == Without(Skel(o), i)
  {
    SkelCat(o[..i], o[i + 1..]);
    SkelSlice(o, 0, i);
    SkelSlice(o, i + 1, |o|);
    assert o[..i] == o[0..i] && o[i + 1..] == o[i + 1..|o|];
  }

  lemma ShapeUpdate(ts: seq<Tree>, k: int, t: Tree)
    requires 0 <= k < |ts|
    ensures Shape(ts[k := t]) == Shape(ts)[k := Skel(Seq(t))]
  {
  }

  /** No vertex points at an occurrence that is not its own vertex's `any`
      occurrence. */
  lemma AnyElsewhere(F: Layout, j: int, i: int)
    requires Loose(F) && 0 <= j < |F.trees| && 0 <= i < |Seq(F.trees[j])|
    requires var e := Seq(F.trees[j])[i]; e.v < |F.any| && F.any[e.v] != e.id
    ensures forall v | 0 <= v < F.n :: F.any[v] != Seq(F.trees[j])[i].id
  {
    var s := Seq(F.trees[j]);
    assert s[i] in s;
  }

  /** Where tree `m` of `Drop(ts[k := ts[j]], j)` comes from. */
  function Source(k: int, j: int, m: int): int
  {
    var o := if m < j then m else m + 1;
    if o == k then j else o
  }

  /** Where tree `h` other than `k` goes in `Drop(ts[k := ts[j]], j)`. */
  function Target(k: int, j: int, h: int): int
  {
    if h == j then (if k < j then k else k - 1) else (if h < j then h else h - 1)
  }

  /** Moving tree `j` into the place of tree `k` keeps every tree but `k`,
      once each. */
  lemma MovedTrees(ts: seq<Tree>, k: int, j: int)
    requires 0 <= k < |ts| && 0 <= j < |ts| && k != j
    ensures var D := Drop(ts[k := ts[j]], j);
      && (forall m | 0 <= m < |D| :: 0 <= Source(k, j, m) < |ts| && Source(k, j, m) != k && D[m] == ts[Source(k, j, m)])
      && (forall h | 0 <= h < |ts| && h != k :: 0 <= Target(k, j, h) < |D| && Source(k, j, Target(k, j, h)) == h)
      && (forall m1, m2 | 0 <= m1 < |D| && 0 <= m2 < |D| && m1 != m2 :: Source(k, j, m1) != Source(k, j, m2))
  {
  }

  lemma MovedApart(ts: seq<Tree>, k: int, j: int)
    requires 0 <= k < |ts| && 0 <= j < |ts| && k != j && IdsApart(ts)
    ensures IdsApart(Drop(ts[k := ts[j]], j))
    ensures AllIds(Drop(ts[k := ts[j]], j)) == AllIds(ts) - IdSet(ts[k])
  {
    var D := Drop(ts[k := ts[j]], j);
    MovedTrees(ts, k, j);
    forall m1, m2 | 0 <= m1 < |D| && 0 <= m2 < |D| && m1 != m2
      ensures IdSet(D[m1]) !! IdSet(D[m2])
    {
      assert Source(k, j, m1) != Source(k, j, m2);
    }
    forall id | id in AllIds(ts) - IdSet(ts[k])
      ensures id in AllIds(D)
    {
      var h := Owner(ts, id);
      AllIdsAt(D, Target(k, j, h), id);
    }
    forall id | id in AllIds(D)
      ensures id in AllIds(ts) - IdSet(ts[k])
    {
      var m := Owner(D, id);
      AllIdsAt(ts, Source(k, j, m), id);
    }
  }

  /** Tree `j` moved into the place of tree `k`, a lone occurrence no
      vertex points at, which is forgotten. */
  lemma DiscardLoose(F: Layout, k: int, j: int)
    requires Loose(F) && 0 <= k < |F.trees| && 0 <= j < |F.trees| && k != j
    requires |Seq(F.trees[k])| == 1 && forall v | 0 <= v < F.n :: F.any[v] != Seq(F.trees[k])[0].id
    ensures Loose(F.(trees := Drop(F.trees[k := F.trees[j]], j)))
  {
    var x := Seq(F.trees[k])[0];
    assert IdSet(F.trees[k]) == {x.id} by {
      assert Seq(F.trees[k]) == [x] && [x][1..] == [];
      assert IdsOf([x]) == {x.id} + IdsOf([]);
    }
    MovedTrees(F.trees, k, j);
    MovedApart(F.trees, k, j);
  }

  /** The layout after `cut`: pieces in place, and the pair of mates and
      the handle forgotten. */
  lemma CutDone(F: Layout, G: Layout, k: int, p: int, q: int, l: nat)
    requires 0 <= k < |F.trees| && l in F.links
    requires var s := Seq(F.trees[k]);
      && 0 <= p < q < |s|
      && ((s[p].id == l && s[q].id == F.links[l]) || (s[p].id == F.links[l] && s[q].id == l))
      && Shape(G.trees) == CutShape(F, k, p, q, Skel(CutInner(s, p, q)))
    requires G.mate == F.mate - {l, F.links[l]} && G.links == F.links - {l}
    requires G.n == F.n && G.vertexOf == F.vertexOf
    ensures CutStep(F, G, k, p, q, l)
  {
  }

  /** The end of `cut`: the later mate removed from the inner pieces, and
      the pair of mates and the handle `l` forgotten, leave a sound forest
      without the tree edge of `l`. */
  lemma CutFinish(F: Layout, sh: seq<seq<(nat, nat)>>, G3: Layout, G4: Layout, k: int, p: int, q: int, l: nat)
    requires l in F.links && 0 <= k < |F.trees|
    requires var s := Seq(F.trees[k]);
      && 0 <= p < q < |s|
      && ((s[p].id == l && s[q].id == F.links[l]) || (s[p].id == F.links[l] && s[q].id == l))
      && sh == CutShape(F, k, p, q, Skel(s[p + 1..q + 1]))
    requires Shape(G3.trees) == CutOffShape(sh, |F.trees|, q - p - 1)
    requires G3.n == F.n && G3.vertexOf == F.vertexOf
    requires G4 == G3.(mate := F.mate - {l, F.links[l]}, links := F.links - {l})
    requires Sound(F) && Loose(G3)
    ensures Sound(G4) && Ends(G4) == Ends(F) - {l}
  {
    InnerRemoved(F, sh, G3, k, p, q);
    CutDone(F, G4, k, p, q, l);
    CutSound(F, G4, k, p, q, l);
  }
}

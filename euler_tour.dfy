/**
 * What makes a sequence of occurrences the Euler tour of a tree, and why the
 * three ways EulerTourForest.java rearranges tours (rotation in `makeRoot`,
 * `expand` + concatenation in `link`, the two splits and removals of `cut`)
 * keep it one.
 *
 * A tour is read cyclically. Every tree edge owns two occurrences (the
 * `edge` and `twin` of its TreeEdge), which are each other's `mate`: the
 * occurrence of one endpoint that is followed, cyclically, by an occurrence
 * of the other endpoint. Removing the two mates splits the cycle into two
 * arcs whose vertex sets are disjoint: the two sides of the edge.
 */
module EulerTour {

  import opened TourTree
  import opened Graph

  /** The vertices with an occurrence in `s`. */
  ghost function Verts(s: seq<Entry>): set<nat>
  {
    if s == [] then {} else {s[0].v} + Verts(s[1..])
  }

  /** The identities of the occurrences in `s`. */
  ghost function IdsOf(s: seq<Entry>): set<nat>
  {
    if s == [] then {} else {s[0].id} + IdsOf(s[1..])
  }

  ghost predicate Unique(s: seq<Entry>)
  {
    forall i, j :: 0 <= i < j < |s| ==> s[i].id != s[j].id
  }

  /** Mates come in pairs of distinct occurrences. */
  ghost predicate Involution(mate: map<nat, nat>)
  {
    forall a :: a in mate ==> mate[a] != a && mate[a] in mate && mate[mate[a]] == a
  }

  /** The cyclic successor of a position. */
  function Next(s: seq<Entry>, i: int): (k: int)
    requires 0 <= i < |s|
    ensures 0 <= k < |s|
  {
    if i + 1 < |s| then i + 1 else 0
  }

  /** A lone occurrence owns no edge; in a longer tour every occurrence owns
      one, and its mate is in the same tour. */
  ghost predicate Mated(s: seq<Entry>, mate: map<nat, nat>)
    requires |s| >= 1
  {
    if |s| == 1 then s[0].id !in mate
    else forall i :: 0 <= i < |s| ==> s[i].id in mate && mate[s[i].id] in IdsOf(s)
  }

  /** An occurrence is followed by an occurrence of its mate's vertex. */
  ghost predicate Neighbours(s: seq<Entry>, mate: map<nat, nat>)
  {
    forall i, j :: 0 <= i < |s| && 0 <= j < |s| && s[i].id in mate && mate[s[i].id] == s[j].id ==>
      s[Next(s, i)].v == s[j].v
  }

  /** The two arcs between mates share no vertex. */
  ghost predicate Separated(s: seq<Entry>, mate: map<nat, nat>)
  {
    forall i, j :: 0 <= i < j < |s| && s[i].id in mate && mate[s[i].id] == s[j].id ==>
      Verts(s[i + 1..j + 1]) !! Verts(s[j + 1..] + s[..i + 1])
  }

  ghost predicate Tour(s: seq<Entry>, mate: map<nat, nat>)
  {
    |s| >= 1 && Unique(s) && Mated(s, mate) && Neighbours(s, mate) && Separated(s, mate)
  }

  // ---------------------------------------------------------------------
  // Sets of vertices and identities

  lemma {:induction false} VertsCat(a: seq<Entry>, b: seq<Entry>)
    ensures Verts(a + b) == Verts(a) + Verts(b)
    ensures IdsOf(a + b) == IdsOf(a) + IdsOf(b)
    decreases |a|
  {
    if a == [] {
      assert a + b == b;
    } else {
      assert (a + b)[1..] == a[1..] + b;
      VertsCat(a[1..], b);
    }
  }

  lemma {:induction false} VertsAt(s: seq<Entry>, i: int)
    requires 0 <= i < |s|
    ensures s[i].v in Verts(s) && s[i].id in IdsOf(s)
    decreases i
  {
    if i > 0 {
      VertsAt(s[1..], i - 1);
    }
  }

  lemma InSets(s: seq<Entry>)
    ensures forall e | e in s :: e.v in Verts(s) && e.id in IdsOf(s)
  {
    forall e | e in s
      ensures e.v in Verts(s) && e.id in IdsOf(s)
    {
      var i :| 0 <= i < |s| && s[i] == e;
      VertsAt(s, i);
    }
  }

  lemma {:induction false} VertsWitness(s: seq<Entry>, x: nat) returns (k: int)
    requires x in Verts(s)
    ensures 0 <= k < |s| && s[k].v == x
    decreases |s|
  {
    if s[0].v == x {
      k := 0;
    } else {
      k := VertsWitness(s[1..], x);
      k := k + 1;
    }
  }

  /** The position of an identity of the tour. */
  lemma {:induction false} IndexOf(s: seq<Entry>, id: nat) returns (k: int)
    requires id in IdsOf(s)
    ensures 0 <= k < |s| && s[k].id == id
    decreases |s|
  {
    if s[0].id == id {
      k := 0;
    } else {
      k := IndexOf(s[1..], id);
      k := k + 1;
    }
  }

  lemma VertsSlice(s: seq<Entry>, i: int, j: int)
    requires 0 <= i <= j <= |s|
    ensures Verts(s[i..j]) <= Verts(s) && IdsOf(s[i..j]) <= IdsOf(s)
  {
    assert s == s[..i] + s[i..j] + s[j..];
    VertsCat(s[..i] + s[i..j], s[j..]);
    VertsCat(s[..i], s[i..j]);
  }

  lemma VertsOne(e: Entry)
    ensures Verts([e]) == {e.v} && IdsOf([e]) == {e.id}
  {
    assert [e][1..] == [];
  }

  lemma InvolutionRemove(mate: map<nat, nat>, a: nat)
    requires Involution(mate) && a in mate
    ensures Involution(mate - {a, mate[a]})
  {
  }

  /** A slice of a concatenation. */
  lemma CatSlice<T>(x: seq<T>, y: seq<T>, a: int, b: int)
    requires 0 <= a <= b <= |x| + |y|
    ensures b <= |x| ==> (x + y)[a..b] == x[a..b]
    ensures |x| <= a ==> (x + y)[a..b] == y[a - |x|..b - |x|]
    ensures a <= |x| <= b ==> (x + y)[a..b] == x[a..] + y[..b - |x|]
  {
  }

  lemma SliceOfSlice<T>(s: seq<T>, a: int, b: int, c: int, d: int)
    requires 0 <= a <= b <= |s| && 0 <= c <= d <= b - a
    ensures s[a..b][c..d] == s[a + c..a + d]
  {
    forall k | 0 <= k < d - c
      ensures s[a..b][c..d][k] == s[a + c..a + d][k]
    {
    }
  }

  // ---------------------------------------------------------------------
  // Rotation (`makeRoot`)

  /** The tour read from position `k`. */
  function Rotated(s: seq<Entry>, k: int): seq<Entry>
    requires 0 <= k <= |s|
  {
    s[k..] + s[..k]
  }

  /** Where a position of the rotated tour comes from. */
  function Origin(n: int, k: int, p: int): int
  {
    if p < n - k then p + k else p + k - n
  }

  lemma RotatedAt(s: seq<Entry>, k: int)
    requires 0 <= k < |s|
    ensures |Rotated(s, k)| == |s|
    ensures forall p :: 0 <= p < |s| ==>
      0 <= Origin(|s|, k, p) < |s| && Rotated(s, k)[p] == s[Origin(|s|, k, p)]
    ensures forall p :: 0 <= p < |s| ==>
      Origin(|s|, k, Next(s, p)) == Next(s, Origin(|s|, k, p))
  {
  }

  lemma RotatedSets(s: seq<Entry>, k: int)
    requires 0 <= k <= |s|
    ensures Verts(Rotated(s, k)) == Verts(s) && IdsOf(Rotated(s, k)) == IdsOf(s)
  {
    assert s == s[..k] + s[k..];
    VertsCat(s[k..], s[..k]);
    VertsCat(s[..k], s[k..]);
  }

  /** The arcs of a pair of mates in the rotated tour are the arcs of the
      same pair in the original tour when both lie on the same side of the
      rotation point, and the same arcs swapped when the rotation point
      falls between them. */
  lemma RotatedArcsBefore(s: seq<Entry>, k: int, i: int, j: int)
    requires 0 <= k < |s| && 0 <= i < j < |s| - k
    ensures var r := Rotated(s, k);
      && r[i + 1..j + 1] == s[k + i + 1..k + j + 1]
      && r[j + 1..] + r[..i + 1] == s[k + j + 1..] + s[..k + i + 1]
  {
    var r, n := Rotated(s, k), |s|;
    var x, y := r[j + 1..] + r[..i + 1], s[k + j + 1..] + s[..k + i + 1];
    var a, b := r[i + 1..j + 1], s[k + i + 1..k + j + 1];
    forall t | 0 <= t < |a|
      ensures a[t] == b[t]
    {
      assert r[i + 1 + t] == s[k..][i + 1 + t];
    }
    assert |x| == |y|;
    forall t | 0 <= t < |x|
      ensures x[t] == y[t]
    {
      if t < n - j - 1 {
        if j + 1 + t < n - k {
          assert r[j + 1 + t] == s[k..][j + 1 + t];
        } else {
          assert r[j + 1 + t] == s[..k][j + 1 + t - (n - k)];
        }
      } else {
        assert r[t - (n - j - 1)] == s[k..][t - (n - j - 1)];
      }
    }
  }

  lemma RotatedArcsAfter(s: seq<Entry>, k: int, i: int, j: int)
    requires 0 <= k < |s| && |s| - k <= i < j < |s|
    ensures var r := Rotated(s, k);
      var i', j' := i + k - |s|, j + k - |s|;
      && r[i + 1..j + 1] == s[i' + 1..j' + 1]
      && r[j + 1..] + r[..i + 1] == s[j' + 1..] + s[..i' + 1]
  {
    var r := Rotated(s, k);
    var i', j' := i + k - |s|, j + k - |s|;
    var a, b, c := s[j' + 1..k], s[k..], s[..i' + 1];
    CatSlice(s[k..], s[..k], i + 1, j + 1);
    assert r[i + 1..j + 1] == s[..k][i' + 1..j' + 1];
    CatSlice(s[k..], s[..k], j + 1, |s|);
    assert r[j + 1..] == s[..k][j' + 1..] == a;
    CatSlice(s[k..], s[..k], 0, i + 1);
    assert r[..i + 1] == b + c;
    assert s[j' + 1..] == a + b;
    assert (a + b) + c == a + (b + c);
  }

  lemma RotatedArcsAcross(s: seq<Entry>, k: int, i: int, j: int)
    requires 0 <= k < |s| && 0 <= i < |s| - k <= j < |s|
    ensures var i', j' := i + k, j + k - |s|;
      Rotated(s, k)[i + 1..j + 1] == s[i' + 1..] + s[..j' + 1]
    ensures var r := Rotated(s, k);
      var i', j' := i + k, j + k - |s|;
      r[j + 1..] + r[..i + 1] == s[j' + 1..i' + 1]
  {
    var r := Rotated(s, k);
    var i', j' := i + k, j + k - |s|;
    CatSlice(s[k..], s[..k], i + 1, j + 1);
    assert r[i + 1..j + 1] == s[k..][i + 1..] + s[..k][..j' + 1];
    CatSlice(s[k..], s[..k], j + 1, |s|);
    assert r[j + 1..] == s[..k][j' + 1..] == s[j' + 1..k];
    CatSlice(s[k..], s[..k], 0, i + 1);
    assert r[..i + 1] == s[k..][..i + 1] == s[k..i' + 1];
    assert s[j' + 1..i' + 1] == s[j' + 1..k] + s[k..i' + 1];
  }

  lemma RotationUnique(s: seq<Entry>, k: int, mate: map<nat, nat>)
    requires Tour(s, mate) && 0 <= k < |s|
    ensures Unique(Rotated(s, k)) && Mated(Rotated(s, k), mate)
  {
    var n := |s|;
    var r := Rotated(s, k);
    RotatedAt(s, k);
    RotatedSets(s, k);
    forall p, q | 0 <= p < q < n
      ensures r[p].id != r[q].id
    {
      var p', q' := Origin(n, k, p), Origin(n, k, q);
      if p' < q' {
        assert s[p'].id != s[q'].id;
      } else {
        assert s[q'].id != s[p'].id;
      }
    }
    if n != 1 {
      forall p | 0 <= p < n
        ensures r[p].id in mate && mate[r[p].id] in IdsOf(r)
      {
        assert r[p] == s[Origin(n, k, p)];
      }
    }
  }

  lemma RotationNeighbours(s: seq<Entry>, k: int, mate: map<nat, nat>)
    requires Tour(s, mate) && 0 <= k < |s|
    ensures Neighbours(Rotated(s, k), mate)
  {
    var n := |s|;
    var r := Rotated(s, k);
    RotatedAt(s, k);
    forall p, q | 0 <= p < n && 0 <= q < n && r[p].id in mate && mate[r[p].id] == r[q].id
      ensures r[Next(r, p)].v == r[q].v
    {
      var p', q' := Origin(n, k, p), Origin(n, k, q);
      assert s[Next(s, p')].v == s[q'].v;
      assert Next(r, p) == Next(s, p);
    }
  }

  /** Arcs equal to the arcs of a pair of mates of `s`, in either order,
      share no vertex. */
  lemma {:induction false} ArcsOfPair(s: seq<Entry>, mate: map<nat, nat>, x: seq<Entry>, y: seq<Entry>, i: int, j: int)
    requires Separated(s, mate) && 0 <= i < j < |s| && s[i].id in mate && mate[s[i].id] == s[j].id
    requires (x == s[i + 1..j + 1] && y == s[j + 1..] + s[..i + 1])
          || (y == s[i + 1..j + 1] && x == s[j + 1..] + s[..i + 1])
    ensures Verts(x) !! Verts(y)
  {
    assert Verts(s[i + 1..j + 1]) !! Verts(s[j + 1..] + s[..i + 1]);
  }

  lemma RotatedPair(s: seq<Entry>, k: int, mate: map<nat, nat>, p: int, q: int)
    requires Separated(s, mate) && Involution(mate) && 0 <= k < |s| && 0 <= p < q < |s|
    requires var r := Rotated(s, k); r[p].id in mate && mate[r[p].id] == r[q].id
    ensures var r := Rotated(s, k); Verts(r[p + 1..q + 1]) !! Verts(r[q + 1..] + r[..p + 1])
  {
    var n, r := |s|, Rotated(s, k);
    RotatedAt(s, k);
    var p', q' := Origin(n, k, p), Origin(n, k, q);
    assert r[p] == s[p'] && r[q] == s[q'];
    if q < n - k {
      RotatedArcsBefore(s, k, p, q);
      ArcsOfPair(s, mate, r[p + 1..q + 1], r[q + 1..] + r[..p + 1], p', q');
    } else if n - k <= p {
      RotatedArcsAfter(s, k, p, q);
      ArcsOfPair(s, mate, r[p + 1..q + 1], r[q + 1..] + r[..p + 1], p', q');
    } else {
      RotatedArcsAcross(s, k, p, q);
      assert s[q'].id in mate && mate[s[q'].id] == s[p'].id;
      ArcsOfPair(s, mate, r[p + 1..q + 1], r[q + 1..] + r[..p + 1], q', p');
    }
  }

  lemma RotationSeparated(s: seq<Entry>, k: int, mate: map<nat, nat>)
    requires Separated(s, mate) && Involution(mate) && 0 <= k < |s|
    ensures Separated(Rotated(s, k), mate)
  {
    var r := Rotated(s, k);
    forall p, q | 0 <= p < q < |r| && r[p].id in mate && mate[r[p].id] == r[q].id
      ensures Verts(r[p + 1..q + 1]) !! Verts(r[q + 1..] + r[..p + 1])
    {
      RotatedPair(s, k, mate, p, q);
    }
  }

  /** `makeRoot` keeps a tour a tour. */
  lemma Rotation(s: seq<Entry>, k: int, mate: map<nat, nat>)
    requires Tour(s, mate) && Involution(mate) && 0 <= k < |s|
    ensures Tour(Rotated(s, k), mate)
    ensures Verts(Rotated(s, k)) == Verts(s) && IdsOf(Rotated(s, k)) == IdsOf(s)
  {
    RotationUnique(s, k, mate);
    RotationNeighbours(s, k, mate);
    RotationSeparated(s, k, mate);
    RotatedSets(s, k);
  }

  // ---------------------------------------------------------------------
  // `expand` and the concatenation of `link`

  /** `expand`: a tour that is not a lone occurrence gets a new occurrence of
      its first vertex at the end. */
  function Expanded(s: seq<Entry>, added: Entry): seq<Entry>
  {
    if |s| == 1 then s else s + [added]
  }

  /** A tour cut open after its last occurrence, which is unmated and is an
      occurrence of the first vertex: ready to be joined to another. */
  ghost predicate Open(a: seq<Entry>, mate: map<nat, nat>)
  {
    && |a| >= 1 && Unique(a)
    && a[|a| - 1].id !in mate
    && a[0].v == a[|a| - 1].v
    && (forall i :: 0 <= i < |a| - 1 ==> a[i].id in mate && mate[a[i].id] in IdsOf(a))
    && (forall i, j :: 0 <= i < |a| - 1 && 0 <= j < |a| && a[i].id in mate && mate[a[i].id] == a[j].id ==>
          a[i + 1].v == a[j].v)
    && Separated(a, mate)
  }

  lemma ExpandUnique(s: seq<Entry>, f: Entry)
    requires Unique(s) && f.id !in IdsOf(s)
    ensures Unique(s + [f])
  {
    forall i | 0 <= i < |s|
      ensures s[i].id != f.id
    {
      VertsAt(s, i);
    }
  }

  lemma ExpandPair(s: seq<Entry>, f: Entry, mate: map<nat, nat>, i: int, j: int)
    requires Separated(s, mate) && |s| >= 2 && f.v == s[0].v
    requires 0 <= i < j < |s| && s[i].id in mate && mate[s[i].id] == s[j].id
    ensures var a := s + [f]; Verts(a[i + 1..j + 1]) !! Verts(a[j + 1..] + a[..i + 1])
  {
    var a := s + [f];
    assert a[i + 1..j + 1] == s[i + 1..j + 1];
    assert a[j + 1..] + a[..i + 1] == s[j + 1..] + ([f] + s[..i + 1]);
    VertsCat(s[j + 1..], [f] + s[..i + 1]);
    VertsCat([f], s[..i + 1]);
    VertsOne(f);
    VertsAt(s[..i + 1], 0);
    VertsCat(s[j + 1..], s[..i + 1]);
  }

  lemma ExpandOpen(s: seq<Entry>, f: Entry, mate: map<nat, nat>)
    requires Tour(s, mate) && Involution(mate)
    requires f.v == s[0].v && f.id !in mate && f.id !in IdsOf(s)
    ensures Open(Expanded(s, f), mate)
    ensures Verts(Expanded(s, f)) == Verts(s)
    ensures IdsOf(Expanded(s, f)) == IdsOf(s) + (if |s| == 1 then {} else {f.id})
  {
    if |s| >= 2 {
      var a := s + [f];
      ExpandUnique(s, f);
      VertsCat(s, [f]);
      VertsOne(f);
      VertsAt(s, 0);
      forall i | 0 <= i < |a| - 1
        ensures a[i].id in mate && mate[a[i].id] in IdsOf(a)
      {
        assert a[i] == s[i];
      }
      forall i, j | 0 <= i < |a| - 1 && 0 <= j < |a| && a[i].id in mate && mate[a[i].id] == a[j].id
        ensures a[i + 1].v == a[j].v
      {
        assert j < |s| && a[j] == s[j] && a[i] == s[i];
        assert s[Next(s, i)].v == s[j].v;
      }
      forall i, j | 0 <= i < j < |a| && a[i].id in mate && mate[a[i].id] == a[j].id
        ensures Verts(a[i + 1..j + 1]) !! Verts(a[j + 1..] + a[..i + 1])
      {
        assert j < |s| && a[j] == s[j] && a[i] == s[i];
        ExpandPair(s, f, mate, i, j);
      }
    }
  }

  /** The map of mates once the two open ends are made mates. */
  function Joined(mate: map<nat, nat>, l: nat, r: nat): map<nat, nat>
  {
    mate[l := r][r := l]
  }

  lemma JoinInvolution(mate: map<nat, nat>, l: nat, r: nat)
    requires Involution(mate) && l !in mate && r !in mate && l != r
    ensures Involution(Joined(mate, l, r))
  {
    var m := Joined(mate, l, r);
    forall x | x in m
      ensures m[x] != x && m[x] in m && m[m[x]] == x
    {
      if x != l && x != r {
        assert mate[x] != l && mate[x] != r;
      }
    }
  }

  lemma JoinUnique(a: seq<Entry>, b: seq<Entry>)
    requires Unique(a) && Unique(b) && IdsOf(a) !! IdsOf(b)
    ensures Unique(a + b)
  {
    forall i, j | 0 <= i < |a| <= j < |a| + |b|
      ensures (a + b)[i].id != (a + b)[j].id
    {
      VertsAt(a, i);
      VertsAt(b, j - |a|);
    }
  }

  /** The mate of an occurrence of one open part lies in the same part. */
  lemma JoinSide(a: seq<Entry>, b: seq<Entry>, mate: map<nat, nat>, i: int, j: int)
    requires IdsOf(a) !! IdsOf(b) && 0 <= i < |a + b| && 0 <= j < |a + b|
    requires (a + b)[i].id in mate && mate[(a + b)[i].id] == (a + b)[j].id
    requires i < |a| ==> mate[(a + b)[i].id] in IdsOf(a)
    requires |a| <= i ==> mate[(a + b)[i].id] in IdsOf(b)
    ensures i < |a| <==> j < |a|
  {
    if i < |a| && |a| <= j {
      VertsAt(b, j - |a|);
    } else if |a| <= i && j < |a| {
      VertsAt(a, j);
    }
  }

  lemma JoinMated(a: seq<Entry>, b: seq<Entry>, mate: map<nat, nat>)
    requires Open(a, mate) && Open(b, mate) && IdsOf(a) !! IdsOf(b)
    ensures var m := Joined(mate, a[|a| - 1].id, b[|b| - 1].id);
      Mated(a + b, m)
  {
    var l, r := a[|a| - 1].id, b[|b| - 1].id;
    var m := Joined(mate, l, r);
    var s := a + b;
    VertsCat(a, b);
    VertsAt(a, |a| - 1);
    VertsAt(b, |b| - 1);
    forall i | 0 <= i < |s|
      ensures s[i].id in m && m[s[i].id] in IdsOf(s)
    {
      if i < |a| - 1 {
        assert s[i] == a[i];
        VertsAt(a, i);
        assert a[i].id != l && a[i].id != r;
        assert m[s[i].id] == mate[a[i].id] && mate[a[i].id] in IdsOf(a);
      } else if i == |a| - 1 {
        assert m[s[i].id] == r;
      } else if i < |s| - 1 {
        assert s[i] == b[i - |a|];
        VertsAt(b, i - |a|);
        assert b[i - |a|].id != l && b[i - |a|].id != r;
        assert m[s[i].id] == mate[b[i - |a|].id] && mate[b[i - |a|].id] in IdsOf(b);
      } else {
        assert m[s[i].id] == l;
      }
    }
  }

  lemma JoinNeighbours(a: seq<Entry>, b: seq<Entry>, mate: map<nat, nat>)
    requires Open(a, mate) && Open(b, mate) && IdsOf(a) !! IdsOf(b)
    ensures var m := Joined(mate, a[|a| - 1].id, b[|b| - 1].id);
      Neighbours(a + b, m)
  {
    var l, r := a[|a| - 1].id, b[|b| - 1].id;
    var m := Joined(mate, l, r);
    var s := a + b;
    VertsAt(a, |a| - 1);
    VertsAt(b, |b| - 1);
    JoinUnique(a, b);
    forall i, j | 0 <= i < |s| && 0 <= j < |s| && s[i].id in m && m[s[i].id] == s[j].id
      ensures s[Next(s, i)].v == s[j].v
    {
      if i < |a| - 1 {
        assert s[i] == a[i] && m[a[i].id] == mate[a[i].id];
        JoinSide(a, b, mate, i, j);
        assert a[i + 1].v == a[j].v;
      } else if i == |a| - 1 {
        assert s[|s| - 1].id == r;
        assert j == |s| - 1;
      } else if i < |s| - 1 {
        assert s[i] == b[i - |a|] && m[b[i - |a|].id] == mate[b[i - |a|].id];
        JoinSide(a, b, mate, i, j);
        assert b[i - |a| + 1].v == b[j - |a|].v;
      } else {
        assert s[|a| - 1].id == l;
        assert j == |a| - 1;
      }
    }
  }

  /** Adding vertices of another tree to the outer arc keeps the arcs
      apart. */
  lemma WidenOuter(x: set<nat>, y: set<nat>, z: set<nat>, all: set<nat>, other: set<nat>)
    requires x !! y + z && x <= all && all !! other
    ensures x !! y + other + z
  {
  }

  /** Where the arcs of a pair of `a` lie in `a + b`. */
  lemma JoinArcsA(a: seq<Entry>, b: seq<Entry>, i: int, j: int)
    requires 0 <= i < j < |a|
    ensures var s := a + b;
      s[i + 1..j + 1] == a[i + 1..j + 1] && s[j + 1..] + s[..i + 1] == (a[j + 1..] + b) + a[..i + 1]
  {
    var s := a + b;
    CatSlice(a, b, i + 1, j + 1);
    CatSlice(a, b, j + 1, |s|);
    CatSlice(a, b, 0, i + 1);
    assert b[..|s| - |a|] == b;
  }

  /** Where the arcs of a pair of `b` lie in `a + b`. */
  lemma JoinArcsB(a: seq<Entry>, b: seq<Entry>, i: int, j: int)
    requires |a| <= i < j < |a| + |b|
    ensures var s := a + b;
      s[i + 1..j + 1] == b[i - |a| + 1..j - |a| + 1]
    ensures var s := a + b;
      s[j + 1..] + s[..i + 1] == (b[j - |a| + 1..] + a) + b[..i - |a| + 1]
  {
    var s := a + b;
    CatSlice(a, b, i + 1, j + 1);
    CatSlice(a, b, j + 1, |s|);
    CatSlice(a, b, 0, i + 1);
    assert a[|a|..] == [];
  }

  /** The arcs of a pair stay apart when the vertices of another tree are
      inserted into the outer arc. */
  lemma OuterWithOther(a: seq<Entry>, b: seq<Entry>, i: int, j: int)
    requires Verts(a) !! Verts(b)
    requires 0 <= i < j < |a| && Verts(a[i + 1..j + 1]) !! Verts(a[j + 1..] + a[..i + 1])
    ensures Verts(a[i + 1..j + 1]) !! Verts((a[j + 1..] + b) + a[..i + 1])
  {
    var p, q := a[j + 1..], a[..i + 1];
    VertsCat(p + b, q);
    VertsCat(p, b);
    VertsCat(p, q);
    VertsSlice(a, i + 1, j + 1);
    assert Verts((p + b) + q) == Verts(p) + Verts(b) + Verts(q);
    WidenOuter(Verts(a[i + 1..j + 1]), Verts(p), Verts(q), Verts(a), Verts(b));
  }

  lemma JoinPairLeft(a: seq<Entry>, b: seq<Entry>, mate: map<nat, nat>, i: int, j: int)
    requires Separated(a, mate) && Verts(a) !! Verts(b)
    requires 0 <= i < j < |a| && a[i].id in mate && mate[a[i].id] == a[j].id
    ensures var s := a + b; Verts(s[i + 1..j + 1]) !! Verts(s[j + 1..] + s[..i + 1])
  {
    assert Verts(a[i + 1..j + 1]) !! Verts(a[j + 1..] + a[..i + 1]);
    JoinArcsA(a, b, i, j);
    OuterWithOther(a, b, i, j);
  }

  lemma {:induction false} JoinPairRight(a: seq<Entry>, b: seq<Entry>, i: int, j: int)
    requires Verts(a) !! Verts(b)
    requires |a| <= i < j < |a| + |b|
    requires Verts(b[i - |a| + 1..j - |a| + 1]) !! Verts(b[j - |a| + 1..] + b[..i - |a| + 1])
    ensures var s := a + b; Verts(s[i + 1..j + 1]) !! Verts(s[j + 1..] + s[..i + 1])
  {
    JoinArcsB(a, b, i, j);
    OuterWithOther(b, a, i - |a|, j - |a|);
  }

  lemma JoinPairNew(a: seq<Entry>, b: seq<Entry>, mate: map<nat, nat>, j: int)
    requires |a| >= 1 && |b| >= 1 && Unique(b) && IdsOf(a) !! IdsOf(b) && Verts(a) !! Verts(b)
    requires var s := a + b; var m := Joined(mate, a[|a| - 1].id, b[|b| - 1].id);
      |a| - 1 < j < |s| && m[s[|a| - 1].id] == s[j].id
    ensures var s := a + b; var i := |a| - 1;
      Verts(s[i + 1..j + 1]) !! Verts(s[j + 1..] + s[..i + 1])
  {
    var s := a + b;
    VertsAt(a, |a| - 1);
    VertsAt(b, |b| - 1);
    assert s[|a| - 1] == a[|a| - 1];
    assert b[j - |a|].id == b[|b| - 1].id;
    assert j == |s| - 1;
    assert s[|a|..j + 1] == b;
    assert s[j + 1..] + s[..|a|] == a;
  }

  lemma JoinPair(a: seq<Entry>, b: seq<Entry>, mate: map<nat, nat>, i: int, j: int)
    requires Open(a, mate) && Open(b, mate) && IdsOf(a) !! IdsOf(b) && Verts(a) !! Verts(b)
    requires var s := a + b; var m := Joined(mate, a[|a| - 1].id, b[|b| - 1].id);
      0 <= i < j < |s| && s[i].id in m && m[s[i].id] == s[j].id
    ensures var s := a + b; Verts(s[i + 1..j + 1]) !! Verts(s[j + 1..] + s[..i + 1])
  {
    var l, r := a[|a| - 1].id, b[|b| - 1].id;
    var m := Joined(mate, l, r);
    var s := a + b;
    var o := |a|;
    if i < o - 1 {
      VertsAt(a, i);
      VertsAt(b, |b| - 1);
      assert s[i] == a[i] && a[i].id != l && a[i].id != r;
      JoinSide(a, b, mate, i, j);
      assert a[j] == s[j];
      JoinPairLeft(a, b, mate, i, j);
    } else if i == o - 1 {
      JoinPairNew(a, b, mate, j);
    } else {
      var i' := i - o;
      assert 0 <= i' < |b| - 1;
      assert s[i] == b[i'];
      assert b[i'].id != r;
      VertsAt(b, i');
      VertsAt(a, |a| - 1);
      assert b[i'].id != l;
      assert b[i'].id in mate && mate[b[i'].id] in IdsOf(b);
      assert m[b[i'].id] == mate[b[i'].id];
      assert mate[s[i].id] == s[j].id;
      JoinSide(a, b, mate, i, j);
      var j' := j - o;
      assert b[j'] == s[j];
      assert Verts(b[i' + 1..j' + 1]) !! Verts(b[j' + 1..] + b[..i' + 1]);
      JoinPairRight(a, b, i, j);
    }
  }

  lemma JoinSeparated(a: seq<Entry>, b: seq<Entry>, mate: map<nat, nat>)
    requires Open(a, mate) && Open(b, mate) && IdsOf(a) !! IdsOf(b) && Verts(a) !! Verts(b)
    ensures var m := Joined(mate, a[|a| - 1].id, b[|b| - 1].id);
      Separated(a + b, m)
  {
    var m := Joined(mate, a[|a| - 1].id, b[|b| - 1].id);
    var s := a + b;
    forall i, j | 0 <= i < j < |s| && s[i].id in m && m[s[i].id] == s[j].id
      ensures Verts(s[i + 1..j + 1]) !! Verts(s[j + 1..] + s[..i + 1])
    {
      JoinPair(a, b, mate, i, j);
    }
  }

  /** `link`: two open tours of different trees, concatenated, form a tour
      whose new pair of mates is their two last occurrences. */
  lemma Join(a: seq<Entry>, b: seq<Entry>, mate: map<nat, nat>)
    requires Open(a, mate) && Open(b, mate) && Involution(mate)
    requires IdsOf(a) !! IdsOf(b) && Verts(a) !! Verts(b)
    ensures var m := Joined(mate, a[|a| - 1].id, b[|b| - 1].id);
      Tour(a + b, m) && Involution(m)
  {
    VertsAt(a, |a| - 1);
    VertsAt(b, |b| - 1);
    JoinUnique(a, b);
    JoinMated(a, b, mate);
    JoinNeighbours(a, b, mate);
    JoinSeparated(a, b, mate);
    JoinInvolution(mate, a[|a| - 1].id, b[|b| - 1].id);
  }

  // ---------------------------------------------------------------------
  // `cut`: removing a pair of mates

  /** Every occurrence lies on one of the two arcs of a pair (p, q). */
  lemma {:induction false} OnArc(s: seq<Entry>, p: int, q: int, j: int)
    requires 0 <= p < q < |s| && 0 <= j < |s|
    ensures p < j <= q ==> s[j].v in Verts(s[p + 1..q + 1])
    ensures (j <= p || q < j) ==> s[j].v in Verts(s[q + 1..] + s[..p + 1])
  {
    var inner, outer := s[p + 1..q + 1], s[q + 1..] + s[..p + 1];
    if p < j <= q {
      assert inner[j - p - 1] == s[j];
      VertsAt(inner, j - p - 1);
    } else if q < j {
      assert outer[j - q - 1] == s[j];
      VertsAt(outer, j - q - 1);
    } else {
      assert outer[|s| - q - 1 + j] == s[j];
      VertsAt(outer, |s| - q - 1 + j);
    }
  }

  /** A pair of mates other than (p, q) with one occurrence strictly between
      p and q has the other one there too: otherwise the vertex that
      follows the first would lie on both arcs of (p, q). */
  lemma {:induction false} MateInside(s: seq<Entry>, mate: map<nat, nat>, p: int, q: int, i: int, j: int)
    requires Tour(s, mate) && Involution(mate)
    requires 0 <= p < q < |s| && s[p].id in mate && mate[s[p].id] == s[q].id
    requires p < i < q && 0 <= j < |s| && s[i].id in mate && mate[s[i].id] == s[j].id
    ensures p < j < q
  {
    assert mate[mate[s[p].id]] == s[p].id;
    assert mate[mate[s[i].id]] == s[i].id;
    assert s[i].id != s[p].id && s[i].id != s[q].id;
    assert j != p && j != q;
    assert Next(s, i) == i + 1;
    assert s[i + 1].v == s[j].v;
    assert Verts(s[p + 1..q + 1]) !! Verts(s[q + 1..] + s[..p + 1]);
    OnArc(s, p, q, i + 1);
    OnArc(s, p, q, j);
  }

  lemma {:induction false} ArcUnique(s: seq<Entry>, p: int, q: int)
    requires Unique(s) && 0 <= p <= q <= |s|
    ensures Unique(s[p..q])
  {
    var b := s[p..q];
    forall i, j | 0 <= i < j < |b|
      ensures b[i].id != b[j].id
    {
      assert b[i] == s[p + i] && b[j] == s[p + j];
    }
  }

  /** Every occurrence strictly between two mates has its mate there too;
      so there are at least two of them when there is one. */
  lemma {:induction false} ArcMated(s: seq<Entry>, mate: map<nat, nat>, p: int, q: int)
    requires Tour(s, mate) && Involution(mate)
    requires 0 <= p && p + 1 < q < |s| && s[p].id in mate && mate[s[p].id] == s[q].id
    ensures |s[p + 1..q]| >= 2 && Mated(s[p + 1..q], mate - {s[p].id, s[q].id})
  {
    var b := s[p + 1..q];
    var m := mate - {s[p].id, s[q].id};
    forall i' | 0 <= i' < |b|
      ensures b[i'].id in m && m[b[i'].id] in IdsOf(b)
      ensures m[b[i'].id] != b[i'].id
    {
      assert b[i'] == s[p + 1 + i'];
      ArcMate(s, mate, p, q, p + 1 + i');
    }
    var k := IndexOf(b, m[b[0].id]);
    assert b[k].id != b[0].id;
  }

  /** One occurrence strictly between two mates has its mate there too. */
  lemma {:induction false} ArcMate(s: seq<Entry>, mate: map<nat, nat>, p: int, q: int, i: int)
    requires Tour(s, mate) && Involution(mate)
    requires 0 <= p && p + 1 < q < |s| && s[p].id in mate && mate[s[p].id] == s[q].id && p < i < q
    ensures var m := mate - {s[p].id, s[q].id};
      s[i].id in m && m[s[i].id] in IdsOf(s[p + 1..q]) && m[s[i].id] != s[i].id
  {
    var b, m := s[p + 1..q], mate - {s[p].id, s[q].id};
    assert s[i].id in mate && mate[s[i].id] in IdsOf(s);
    var j := IndexOf(s, mate[s[i].id]);
    MateInside(s, mate, p, q, i, j);
    assert b[j - p - 1] == s[j];
    VertsAt(b, j - p - 1);
    assert s[i].id != s[p].id && s[i].id != s[q].id;
    assert m[s[i].id] == s[j].id == b[j - p - 1].id;
  }

  lemma {:induction false} ArcNext(s: seq<Entry>, p: int, q: int, i: int, j: int)
    requires 0 <= p && p + 1 < q < |s| && p < i < q && p < j < q
    requires s[Next(s, i)].v == s[j].v && s[p + 1].v == s[q].v
    ensures var b := s[p + 1..q]; b[Next(b, i - p - 1)].v == b[j - p - 1].v
  {
    var b := s[p + 1..q];
    assert b[j - p - 1] == s[j];
    if i + 1 < q {
      assert b[i - p] == s[i + 1];
    } else {
      assert b[0] == s[p + 1];
    }
  }

  lemma {:induction false} ArcNeighbours(s: seq<Entry>, mate: map<nat, nat>, p: int, q: int)
    requires Neighbours(s, mate)
    requires 0 <= p && p + 1 < q < |s| && s[p].id in mate && mate[s[p].id] == s[q].id
    ensures Neighbours(s[p + 1..q], mate - {s[p].id, s[q].id})
  {
    var b := s[p + 1..q];
    var m := mate - {s[p].id, s[q].id};
    assert s[Next(s, p)].v == s[q].v;
    forall i', j' | 0 <= i' < |b| && 0 <= j' < |b| && b[i'].id in m && m[b[i'].id] == b[j'].id
      ensures b[Next(b, i')].v == b[j'].v
    {
      var i, j := p + 1 + i', p + 1 + j';
      assert b[i'] == s[i] && b[j'] == s[j];
      assert s[Next(s, i)].v == s[j].v;
      ArcNext(s, p, q, i, j);
    }
  }

  /** The arcs of a pair (i, j) inside the arc (p, q), cut out of it. */
  lemma {:induction false} ArcPieces(s: seq<Entry>, p: int, q: int, i: int, j: int)
    requires 0 <= p < i < j < q <= |s|
    ensures var b := s[p + 1..q]; var i', j' := i - p - 1, j - p - 1;
      && b[i' + 1..j' + 1] == s[i + 1..j + 1]
      && s[j + 1..] == b[j' + 1..] + s[q..]
      && s[..i + 1] == s[..p + 1] + b[..i' + 1]
  {
    SliceOfSlice(s, p + 1, q, i - p, j - p);
    SliceOfSlice(s, p + 1, q, j - p, q - p - 1);
    SliceOfSlice(s, p + 1, q, 0, i - p);
    assert s[j + 1..] == s[j + 1..q] + s[q..];
    assert s[..i + 1] == s[..p + 1] + s[p + 1..i + 1];
  }

  lemma {:induction false} ArcPair(s: seq<Entry>, p: int, q: int, i: int, j: int)
    requires 0 <= p < i < j < q <= |s|
    requires Verts(s[i + 1..j + 1]) !! Verts(s[j + 1..] + s[..i + 1])
    ensures var b := s[p + 1..q]; var i', j' := i - p - 1, j - p - 1;
      Verts(b[i' + 1..j' + 1]) !! Verts(b[j' + 1..] + b[..i' + 1])
  {
    var b := s[p + 1..q];
    var i', j' := i - p - 1, j - p - 1;
    ArcPieces(s, p, q, i, j);
    var y, z := b[j' + 1..], b[..i' + 1];
    VertsCat(s[j + 1..], s[..i + 1]);
    VertsCat(y, s[q..]);
    VertsCat(s[..p + 1], z);
    VertsCat(y, z);
  }

  lemma {:induction false} ArcSeparated(s: seq<Entry>, mate: map<nat, nat>, p: int, q: int)
    requires Separated(s, mate) && 0 <= p && p + 1 < q < |s|
    ensures Separated(s[p + 1..q], mate - {s[p].id, s[q].id})
  {
    var b := s[p + 1..q];
    var m := mate - {s[p].id, s[q].id};
    forall i', j' | 0 <= i' < j' < |b| && b[i'].id in m && m[b[i'].id] == b[j'].id
      ensures Verts(b[i' + 1..j' + 1]) !! Verts(b[j' + 1..] + b[..i' + 1])
    {
      var i, j := p + 1 + i', p + 1 + j';
      assert b[i'] == s[i] && b[j'] == s[j];
      ArcPair(s, p, q, i, j);
    }
  }

  /** The occurrences strictly between two mates form the tour of the side
      cut off by removing them. */
  lemma ArcTour(s: seq<Entry>, mate: map<nat, nat>, p: int, q: int, arc: seq<Entry>, m: map<nat, nat>)
    requires Tour(s, mate) && Involution(mate)
    requires 0 <= p && p + 1 < q < |s| && s[p].id in mate && mate[s[p].id] == s[q].id
    requires arc == s[p + 1..q] && m == mate - {s[p].id, s[q].id}
    ensures Tour(arc, m)
  {
    ArcUnique(s, p + 1, q);
    ArcMated(s, mate, p, q);
    ArcNeighbours(s, mate, p, q);
    ArcSeparated(s, mate, p, q);
  }

  /** The side of the later mate once the pair is cut: the occurrences
      between the two mates, or the later mate alone when there are none. */
  function CutInner(s: seq<Entry>, p: int, q: int): seq<Entry>
    requires 0 <= p < q < |s|
  {
    if p + 1 == q then [s[q]] else s[p + 1..q]
  }

  /** The side of the earlier mate: the occurrences before it followed by
      those after the later one, or the earlier mate alone when there are
      none. */
  function CutOuter(s: seq<Entry>, p: int, q: int): seq<Entry>
    requires 0 <= p < q < |s|
  {
    if p == 0 && q == |s| - 1 then [s[p]] else s[..p] + s[q + 1..]
  }

  /** Read from the later mate, the tour is the later mate, the occurrences
      after it, those before the earlier mate, the earlier mate, and the
      arc between them. */
  lemma {:induction false} RotatedOuter(s: seq<Entry>, p: int, q: int)
    requires 0 <= p < q < |s|
    ensures var r, k := Rotated(s, q), |s| - q + p;
      && |r| == |s| && r[0] == s[q] && r[k] == s[p]
      && r[1..k] == s[q + 1..] + s[..p]
  {
    var r, k := Rotated(s, q), |s| - q + p;
    CatSlice(s[q..], s[..q], 1, k);
    assert s[q..][1..] == s[q + 1..];
    assert s[..q][..p] == s[..p];
  }

  lemma {:induction false} SwapHalves(x: seq<Entry>, c: seq<Entry>, a: seq<Entry>, m: map<nat, nat>)
    requires Tour(x, m) && x == c + a && Involution(m) && |x| >= 1
    ensures Tour(a + c, m)
  {
    if a == [] {
      assert a + c == x;
    } else {
      Rotation(x, |c|, m);
      assert x[|c|..] == a && x[..|c|] == c;
    }
  }

  lemma ArcFromStart(r: seq<Entry>, mate: map<nat, nat>, k: int, m: map<nat, nat>)
    requires Tour(r, mate) && Involution(mate)
    requires 1 < k < |r| && r[0].id in mate && mate[r[0].id] == r[k].id
    requires m == mate - {r[0].id, r[k].id}
    ensures Tour(r[1..k], m)
  {
    ArcTour(r, mate, 0, k, r[1..k], m);
  }

  /** The outer side, read from the later mate onwards, is the arc between
      the two mates of the rotated tour; rotated back, it is a tour too. */
  lemma {:induction false} OuterTour(s: seq<Entry>, mate: map<nat, nat>, p: int, q: int)
    requires Tour(s, mate) && Involution(mate)
    requires 0 <= p < q < |s| && s[p].id in mate && mate[s[p].id] == s[q].id
    requires !(p == 0 && q == |s| - 1)
    ensures Tour(s[..p] + s[q + 1..], mate - {s[p].id, s[q].id})
  {
    var r := Rotated(s, q);
    var k := |s| - q + p;
    var m := mate - {s[p].id, s[q].id};
    Rotation(s, q, mate);
    RotatedOuter(s, p, q);
    assert mate[r[0].id] == r[k].id;
    ArcFromStart(r, mate, k, m);
    InvolutionRemove(mate, s[p].id);
    SwapHalves(r[1..k], s[q + 1..], s[..p], m);
  }

  lemma {:induction false} UniqueApart(x: seq<Entry>, y: seq<Entry>)
    requires Unique(x + y)
    ensures IdsOf(x) !! IdsOf(y)
  {
    forall i, j | 0 <= i < |x| && 0 <= j < |y|
      ensures x[i].id != y[j].id
    {
      assert (x + y)[i] == x[i] && (x + y)[|x| + j] == y[j];
    }
    forall id | id in IdsOf(x)
      ensures id !in IdsOf(y)
    {
      var i := IndexOf(x, id);
      if id in IdsOf(y) {
        var j := IndexOf(y, id);
      }
    }
  }

  /** The vertices of the two sides are those of the two arcs between the
      mates. */
  lemma {:induction false} CutVerts(s: seq<Entry>, mate: map<nat, nat>, p: int, q: int)
    requires Neighbours(s, mate) && Involution(mate)
    requires 0 <= p < q < |s| && s[p].id in mate && mate[s[p].id] == s[q].id
    ensures Verts(CutInner(s, p, q)) == Verts(s[p + 1..q + 1])
    ensures Verts(CutOuter(s, p, q)) == Verts(s[q + 1..] + s[..p + 1])
  {
    var a, b, c := s[..p], s[p + 1..q], s[q + 1..];
    var x, y := s[p], s[q];
    assert s[p + 1..q + 1] == b + [y];
    assert s[..p + 1] == a + [x];
    assert mate[s[q].id] == s[p].id;
    VertsOne(x);
    VertsOne(y);
    VertsCat(b, [y]);
    VertsCat(c, a + [x]);
    VertsCat(a, [x]);
    VertsCat(a, c);
    if b != [] {
      assert s[Next(s, p)].v == y.v;
      assert b[0] == s[p + 1];
      VertsAt(b, 0);
    }
    if c != [] {
      assert s[Next(s, q)].v == x.v;
      assert c[0] == s[q + 1];
      VertsAt(c, 0);
    } else if a != [] {
      assert s[Next(s, q)].v == x.v;
      assert a[0] == s[0];
      VertsAt(a, 0);
    }
  }

  lemma {:induction false} CutIds(s: seq<Entry>, p: int, q: int)
    requires Unique(s) && 0 <= p < q < |s|
    ensures var i, o := CutInner(s, p, q), CutOuter(s, p, q);
      && IdsOf(i) !! IdsOf(o) && IdsOf(i) + IdsOf(o) <= IdsOf(s)
      && IdsOf(s) - {s[p].id, s[q].id} <= IdsOf(i) + IdsOf(o)
  {
    var a, b, c := s[..p], s[p + 1..q], s[q + 1..];
    var x, y := s[p], s[q];
    assert s == (a + [x]) + b + ([y] + c);
    UniqueApart((a + [x]) + b, [y] + c);
    UniqueApart(a + [x], b);
    UniqueApart(a, [x]);
    UniqueApart([y], c);
    VertsCat((a + [x]) + b, [y] + c);
    VertsCat(a + [x], b);
    VertsCat(a, [x]);
    VertsCat([y], c);
    VertsCat(a, c);
    VertsOne(x);
    VertsOne(y);
  }

  lemma {:induction false} CutSets(s: seq<Entry>, mate: map<nat, nat>, p: int, q: int)
    requires Tour(s, mate) && Involution(mate)
    requires 0 <= p < q < |s| && s[p].id in mate && mate[s[p].id] == s[q].id
    ensures var i, o := CutInner(s, p, q), CutOuter(s, p, q);
      && Verts(i) !! Verts(o) && Verts(i) + Verts(o) == Verts(s)
      && s[q].v in Verts(i) && s[p].v in Verts(o)
    ensures var i, o := CutInner(s, p, q), CutOuter(s, p, q);
      && IdsOf(i) !! IdsOf(o) && IdsOf(i) + IdsOf(o) <= IdsOf(s)
      && IdsOf(s) - {s[p].id, s[q].id} <= IdsOf(i) + IdsOf(o)
  {
    CutVerts(s, mate, p, q);
    CutIds(s, p, q);
    assert Verts(s[p + 1..q + 1]) !! Verts(s[q + 1..] + s[..p + 1]);
    ArcsVerts(s, p, q);
  }

  /** The vertices of the two arcs between places `p < q` together are those
      of the tour; the arc after `p` ends with `s[q]`, the other with `s[p]`. */
  lemma {:induction false} ArcsVerts(s: seq<Entry>, p: int, q: int)
    requires 0 <= p < q < |s|
    ensures var inner, outer := s[p + 1..q + 1], s[q + 1..] + s[..p + 1];
      && Verts(inner) + Verts(outer) == Verts(s)
      && s[q].v in Verts(inner) && s[p].v in Verts(outer)
  {
    var inner, outer := s[p + 1..q + 1], s[q + 1..] + s[..p + 1];
    assert s == s[..p + 1] + inner + s[q + 1..];
    VertsCat(s[..p + 1] + inner, s[q + 1..]);
    VertsCat(s[..p + 1], inner);
    VertsCat(s[q + 1..], s[..p + 1]);
    assert inner[q - p - 1] == s[q];
    VertsAt(inner, q - p - 1);
    assert outer[|s| - q - 1 + p] == s[p];
    VertsAt(outer, |s| - q - 1 + p);
  }

  /** `cut`: removing a pair of mates leaves two tours, one on each side of
      the pair, which split the vertices of the tour between them. */
  lemma Cut(s: seq<Entry>, mate: map<nat, nat>, p: int, q: int)
    requires Tour(s, mate) && Involution(mate)
    requires 0 <= p < q < |s| && s[p].id in mate && mate[s[p].id] == s[q].id
    ensures var m := mate - {s[p].id, s[q].id};
      Involution(m) && Tour(CutInner(s, p, q), m) && Tour(CutOuter(s, p, q), m)
    ensures var i, o := CutInner(s, p, q), CutOuter(s, p, q);
      && Verts(i) !! Verts(o) && Verts(i) + Verts(o) == Verts(s)
      && s[q].v in Verts(i) && s[p].v in Verts(o)
    ensures var i, o := CutInner(s, p, q), CutOuter(s, p, q);
      && IdsOf(i) !! IdsOf(o) && IdsOf(i) + IdsOf(o) <= IdsOf(s)
      && IdsOf(s) - {s[p].id, s[q].id} <= IdsOf(i) + IdsOf(o)
  {
    InvolutionRemove(mate, s[p].id);
    CutSets(s, mate, p, q);
    InnerSide(s, mate, p, q);
    OuterSide(s, mate, p, q);
  }

  lemma InnerSide(s: seq<Entry>, mate: map<nat, nat>, p: int, q: int)
    requires Tour(s, mate) && Involution(mate)
    requires 0 <= p < q < |s| && s[p].id in mate && mate[s[p].id] == s[q].id
    ensures Tour(CutInner(s, p, q), mate - {s[p].id, s[q].id})
  {
    if p + 1 == q {
      VertsOne(s[q]);
    } else {
      ArcTour(s, mate, p, q, s[p + 1..q], mate - {s[p].id, s[q].id});
    }
  }

  lemma OuterSide(s: seq<Entry>, mate: map<nat, nat>, p: int, q: int)
    requires Tour(s, mate) && Involution(mate)
    requires 0 <= p < q < |s| && s[p].id in mate && mate[s[p].id] == s[q].id
    ensures Tour(CutOuter(s, p, q), mate - {s[p].id, s[q].id})
  {
    if p == 0 && q == |s| - 1 {
      VertsOne(s[p]);
    } else {
      OuterTour(s, mate, p, q);
    }
  }

  lemma DisjointCard(x: set<nat>, y: set<nat>)
    requires x !! y
    ensures |x + y| == |x| + |y|
  {
    assert x * y == {};
  }

  /** Cutting the pair of the first occurrence: two smaller tours whose
      lengths add up to two less than the tour's, counting a lone
      occurrence as none, and which split the vertices. */
  lemma {:induction false} CountSplit(s: seq<Entry>, mate: map<nat, nat>) returns (i: seq<Entry>, o: seq<Entry>, m: map<nat, nat>)
    requires Tour(s, mate) && Involution(mate) && |s| >= 2
    ensures Tour(i, m) && Tour(o, m) && Involution(m) && |i| < |s| && |o| < |s|
    ensures |s| == 2 + (if |i| == 1 then 0 else |i|) + (if |o| == 1 then 0 else |o|)
    ensures |Verts(s)| == |Verts(i)| + |Verts(o)|
  {
    assert s[0].id in mate && mate[s[0].id] in IdsOf(s);
    var q := IndexOf(s, mate[s[0].id]);
    assert q != 0;
    Cut(s, mate, 0, q);
    m := mate - {s[0].id, s[q].id};
    i, o := CutInner(s, 0, q), CutOuter(s, 0, q);
    assert |i| == (if q == 1 then 1 else q - 1);
    assert |o| == (if q == |s| - 1 then 1 else |s| - q - 1);
    DisjointCard(Verts(i), Verts(o));
  }

  /** A tour of a tree with k >= 2 vertices has 2k - 2 occurrences, two per
      edge; a lone occurrence is a tree with one vertex. */
  lemma {:induction false} TourCount(s: seq<Entry>, mate: map<nat, nat>)
    requires Tour(s, mate) && Involution(mate)
    ensures |s| == 1 ==> |Verts(s)| == 1
    ensures |s| >= 2 ==> |s| == 2 * |Verts(s)| - 2
    decreases |s|
  {
    if |s| == 1 {
      assert s == [s[0]];
      VertsOne(s[0]);
    } else {
      var i, o, m := CountSplit(s, mate);
      TourCount(i, m);
      TourCount(o, m);
    }
  }

  // ---------------------------------------------------------------------
  // What a tour says about the tree it walks

  /** Consecutive occurrences of a tour are joined by the edge of the first
      one's pair of mates, so the vertices of a tour are connected by the
      edges of its pairs. */
  lemma {:induction false} TourReach(s: seq<Entry>, mate: map<nat, nat>, E: set<(nat, nat)>, i: int)
    requires Tour(s, mate) && 0 <= i < |s|
    requires forall a, b :: 0 <= a < |s| && 0 <= b < |s| && s[a].id in mate && mate[s[a].id] == s[b].id ==>
      Adjacent(E, s[a].v, s[b].v)
    ensures Reach(E, s[0].v, s[i].v)
  {
    ReachRefl(E, s[0].v);
    var k := 0;
    while k < i
      invariant 0 <= k <= i && Reach(E, s[0].v, s[k].v)
    {
      assert s[k].id in mate && mate[s[k].id] in IdsOf(s);
      var j := IndexOf(s, mate[s[k].id]);
      assert s[Next(s, k)].v == s[j].v;
      ReachStep(E, s[0].v, s[k].v, s[k + 1].v);
      k := k + 1;
    }
  }

  lemma TourConnected(s: seq<Entry>, mate: map<nat, nat>, E: set<(nat, nat)>, x: nat, y: nat)
    requires Tour(s, mate) && x in Verts(s) && y in Verts(s)
    requires forall a, b :: 0 <= a < |s| && 0 <= b < |s| && s[a].id in mate && mate[s[a].id] == s[b].id ==>
      Adjacent(E, s[a].v, s[b].v)
    ensures Reach(E, x, y)
  {
    var i := VertsWitness(s, x);
    var j := VertsWitness(s, y);
    TourReach(s, mate, E, i);
    TourReach(s, mate, E, j);
    ReachSym(E, s[0].v, x);
    ReachTrans(E, x, s[0].v, y);
  }

  /** Two tours that differ only in the active-edge counters. */
  ghost predicate SameShape(s: seq<Entry>, t: seq<Entry>)
  {
    |s| == |t| && forall i :: 0 <= i < |s| ==> s[i].id == t[i].id && s[i].v == t[i].v
  }

  lemma {:induction false} ShapeSets(s: seq<Entry>, t: seq<Entry>)
    requires SameShape(s, t)
    ensures Verts(s) == Verts(t) && IdsOf(s) == IdsOf(t)
    decreases |s|
  {
    if s != [] {
      assert SameShape(s[1..], t[1..]) by {
        forall i | 0 <= i < |s| - 1
          ensures s[1..][i].id == t[1..][i].id && s[1..][i].v == t[1..][i].v
        {
          assert s[1..][i] == s[i + 1] && t[1..][i] == t[i + 1];
        }
      }
      ShapeSets(s[1..], t[1..]);
    }
  }

  lemma ShapeSlices(s: seq<Entry>, t: seq<Entry>, i: int, j: int)
    requires SameShape(s, t) && 0 <= i < j < |s|
    ensures Verts(s[i + 1..j + 1]) == Verts(t[i + 1..j + 1])
    ensures Verts(s[j + 1..] + s[..i + 1]) == Verts(t[j + 1..] + t[..i + 1])
  {
    var a, b := s[i + 1..j + 1], t[i + 1..j + 1];
    assert SameShape(a, b) by {
      forall k | 0 <= k < |a|
        ensures a[k].id == b[k].id && a[k].v == b[k].v
      {
        assert a[k] == s[i + 1 + k] && b[k] == t[i + 1 + k];
      }
    }
    ShapeSets(a, b);
    var c, d := s[j + 1..] + s[..i + 1], t[j + 1..] + t[..i + 1];
    assert SameShape(c, d) by {
      forall k | 0 <= k < |c|
        ensures c[k].id == d[k].id && c[k].v == d[k].v
      {
        if k < |s| - j - 1 {
          assert c[k] == s[j + 1 + k] && d[k] == t[j + 1 + k];
        } else {
          assert c[k] == s[k - |s| + j + 1] && d[k] == t[k - |s| + j + 1];
        }
      }
    }
    ShapeSets(c, d);
  }

  /** Being a tour depends on identities and vertices only. */
  lemma ShapeTour(s: seq<Entry>, t: seq<Entry>, mate: map<nat, nat>)
    requires SameShape(s, t) && Tour(s, mate)
    ensures Tour(t, mate) && Verts(s) == Verts(t) && IdsOf(s) == IdsOf(t)
  {
    ShapeSets(s, t);
    forall i, j | 0 <= i < j < |t|
      ensures t[i].id != t[j].id
    {
      assert s[i].id != s[j].id;
    }
    if |t| > 1 {
      forall i | 0 <= i < |t|
        ensures t[i].id in mate && mate[t[i].id] in IdsOf(t)
      {
        assert s[i].id in mate && mate[s[i].id] in IdsOf(s);
      }
    }
    forall i, j | 0 <= i < |t| && 0 <= j < |t| && t[i].id in mate && mate[t[i].id] == t[j].id
      ensures t[Next(t, i)].v == t[j].v
    {
      assert s[Next(s, i)].v == s[j].v;
    }
    forall i, j | 0 <= i < j < |t| && t[i].id in mate && mate[t[i].id] == t[j].id
      ensures Verts(t[i + 1..j + 1]) !! Verts(t[j + 1..] + t[..i + 1])
    {
      assert s[i].id in mate && mate[s[i].id] == s[j].id;
      ShapeSlices(s, t, i, j);
    }
  }

  /** The identities stored in a tree are those of its tour. */
  lemma {:induction false} IdsAgree(t: Tree)
    ensures Ids(t) == IdsOf(Seq(t))
  {
    if t.Node? {
      IdsAgree(t.left);
      IdsAgree(t.right);
      VertsCat(Seq(t.left) + [t.e], Seq(t.right));
      VertsCat(Seq(t.left), [t.e]);
      VertsOne(t.e);
    }
  }

  /** In a tour with more than one occurrence, the mate of an occurrence is
      in the same tour. */
  lemma MateInTour(P: seq<Entry>, m: map<nat, nat>, id: nat)
    requires Tour(P, m) && id in IdsOf(P) && id in m
    ensures m[id] in IdsOf(P)
  {
    var t := IndexOf(P, id);
    assert |P| != 1;
  }

  /** The two sides of a cut are made of occurrences of the tour. */
  lemma CutParts(s: seq<Entry>, p: int, q: int)
    requires 0 <= p < q < |s|
    ensures forall e | e in CutInner(s, p, q) :: e in s
    ensures forall e | e in CutOuter(s, p, q) :: e in s
  {
    assert s == s[..p] + s[p..q] + s[q..];
    assert s[p..q] == [s[p]] + s[p + 1..q];
    assert s[q..] == [s[q]] + s[q + 1..];
  }

  /** After a cut, every other pair of mates lies on one side. */
  lemma CutKeepsPairs(s: seq<Entry>, mate: map<nat, nat>, p: int, q: int, a: nat)
    requires Tour(s, mate) && Involution(mate)
    requires 0 <= p < q < |s| && s[p].id in mate && mate[s[p].id] == s[q].id
    requires a in IdsOf(s) && a in mate && a != s[p].id && a != s[q].id
    ensures var i, o := CutInner(s, p, q), CutOuter(s, p, q);
      || (a in IdsOf(o) && mate[a] in IdsOf(o))
      || (a in IdsOf(i) && mate[a] in IdsOf(i))
  {
    Cut(s, mate, p, q);
    var m := mate - {s[p].id, s[q].id};
    assert mate[a] != s[p].id && mate[a] != s[q].id;
    if a in IdsOf(CutOuter(s, p, q)) {
      MateInTour(CutOuter(s, p, q), m, a);
    } else {
      MateInTour(CutInner(s, p, q), m, a);
    }
  }

  /** The vertex recorded for an occurrence of a part lies in that part. */
  lemma RecordedVertex(P: seq<Entry>, vertexOf: map<nat, nat>, id: nat)
    requires forall e | e in P :: e.id in vertexOf && vertexOf[e.id] == e.v
    requires id in IdsOf(P)
    ensures id in vertexOf && vertexOf[id] in Verts(P)
  {
    var t := IndexOf(P, id);
    assert P[t] in P;
    VertsAt(P, t);
  }

  /** The identities and vertices of a tour, without the counters. */
  ghost function Skel(s: seq<Entry>): seq<(nat, nat)>
  {
    seq(|s|, i requires 0 <= i < |s| => (s[i].id, s[i].v))
  }

  lemma SkelCat(a: seq<Entry>, b: seq<Entry>)
    ensures Skel(a + b) == Skel(a) + Skel(b)
  {
    assert forall i | 0 <= i < |a| + |b| :: Skel(a + b)[i] == (Skel(a) + Skel(b))[i];
  }

  lemma SkelSlice(s: seq<Entry>, i: int, j: int)
    requires 0 <= i <= j <= |s|
    ensures Skel(s[i..j]) == Skel(s)[i..j]
  {
    assert forall k | 0 <= k < j - i :: Skel(s[i..j])[k] == Skel(s)[i..j][k];
  }

  lemma SkelShape(s: seq<Entry>, t: seq<Entry>)
    requires Skel(s) == Skel(t)
    ensures SameShape(s, t)
  {
    assert |s| == |Skel(s)|;
    forall i | 0 <= i < |s|
      ensures s[i].id == t[i].id && s[i].v == t[i].v
    {
      assert Skel(s)[i] == Skel(t)[i];
    }
  }

  /** Tours with the same identities and vertices. */
  lemma SkelTour(s: seq<Entry>, t: seq<Entry>, mate: map<nat, nat>)
    requires Skel(s) == Skel(t) && Tour(s, mate)
    ensures Tour(t, mate) && Verts(s) == Verts(t) && IdsOf(s) == IdsOf(t)
  {
    SkelShape(s, t);
    ShapeTour(s, t, mate);
  }

  lemma SkelSets(s: seq<Entry>, t: seq<Entry>)
    requires Skel(s) == Skel(t)
    ensures Verts(s) == Verts(t) && IdsOf(s) == IdsOf(t)
  {
    SkelShape(s, t);
    ShapeSets(s, t);
  }

  lemma SkelUnique(s: seq<Entry>, t: seq<Entry>)
    requires Skel(s) == Skel(t) && Unique(s)
    ensures Unique(t)
  {
    SkelShape(s, t);
  }

  /** Whether a sequence is a tour depends only on the mates of its own
      occurrences. */
  lemma MateLocal(s: seq<Entry>, m: map<nat, nat>, m': map<nat, nat>)
    requires Tour(s, m)
    requires forall id | id in IdsOf(s) :: (id in m <==> id in m') && (id in m ==> m'[id] == m[id])
    ensures Tour(s, m')
  {
    forall i | 0 <= i < |s|
      ensures (s[i].id in m <==> s[i].id in m') && (s[i].id in m ==> m'[s[i].id] == m[s[i].id])
    {
      VertsAt(s, i);
    }
  }
}

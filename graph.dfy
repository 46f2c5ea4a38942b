/**
 * Undirected reachability over a set of vertex pairs: the notion of
 * "connected" that DynamicGraph.java answers for, and that the spanning
 * forests of every level are kept in step with.
 */
module Graph {

  /** `x` and `y` are the two ends of an edge of `E`, in either order. */
  ghost predicate Adjacent(E: set<(nat, nat)>, x: nat, y: nat)
  {
    (x, y) in E || (y, x) in E
  }

  /** A sequence of vertices, each adjacent to the next. */
  ghost predicate Walk(E: set<(nat, nat)>, p: seq<nat>)
  {
    |p| >= 1 && forall k :: 0 <= k < |p| - 1 ==> Adjacent(E, p[k], p[k + 1])
  }

  ghost predicate Reach(E: set<(nat, nat)>, x: nat, y: nat)
  {
    exists p {:trigger Walk(E, p)} :: Walk(E, p) && p[0] == x && p[|p| - 1] == y
  }

  lemma ReachRefl(E: set<(nat, nat)>, x: nat)
    ensures Reach(E, x, x)
  {
    assert Walk(E, [x]);
  }

  lemma ReachStep(E: set<(nat, nat)>, x: nat, y: nat, z: nat)
    requires Reach(E, x, y) && Adjacent(E, y, z)
    ensures Reach(E, x, z)
  {
    var p :| Walk(E, p) && p[0] == x && p[|p| - 1] == y;
    var p' := p + [z];
    assert p'[|p'| - 1] == z && p'[0] == x;
    assert Walk(E, p');
  }

  lemma ReachTrans(E: set<(nat, nat)>, x: nat, y: nat, z: nat)
    requires Reach(E, x, y) && Reach(E, y, z)
    ensures Reach(E, x, z)
  {
    var p :| Walk(E, p) && p[0] == x && p[|p| - 1] == y;
    var q :| Walk(E, q) && q[0] == y && q[|q| - 1] == z;
    var r := p + q[1..];
    assert r[0] == x && r[|r| - 1] == z;
    forall k | 0 <= k < |r| - 1
      ensures Adjacent(E, r[k], r[k + 1])
    {
      if k < |p| - 1 {
        assert r[k] == p[k] && r[k + 1] == p[k + 1];
      } else {
        assert r[k] == q[k - |p| + 1] && r[k + 1] == q[k - |p| + 2];
      }
    }
    assert Walk(E, r);
  }

  lemma ReachSym(E: set<(nat, nat)>, x: nat, y: nat)
    requires Reach(E, x, y)
    ensures Reach(E, y, x)
  {
    var p :| Walk(E, p) && p[0] == x && p[|p| - 1] == y;
    var r := seq(|p|, k requires 0 <= k < |p| => p[|p| - 1 - k]);
    forall k | 0 <= k < |r| - 1
      ensures Adjacent(E, r[k], r[k + 1])
    {
      assert Adjacent(E, p[|p| - 2 - k], p[|p| - 1 - k]);
    }
    assert Walk(E, r);
  }

  /** Reachability only grows with the edges. */
  lemma ReachMono(E: set<(nat, nat)>, F: set<(nat, nat)>, x: nat, y: nat)
    requires forall e | e in E :: Adjacent(F, e.0, e.1)
    requires Reach(E, x, y)
    ensures Reach(F, x, y)
  {
    var p :| Walk(E, p) && p[0] == x && p[|p| - 1] == y;
    forall k | 0 <= k < |p| - 1
      ensures Adjacent(F, p[k], p[k + 1])
    {
      if (p[k], p[k + 1]) in E {
        assert Adjacent(F, (p[k], p[k + 1]).0, (p[k], p[k + 1]).1);
      } else {
        assert Adjacent(F, (p[k + 1], p[k]).0, (p[k + 1], p[k]).1);
      }
    }
    assert Walk(F, p);
  }

  /** A set of vertices that no edge leaves contains everything reachable
      from it. */
  lemma {:induction false} ReachClosed(E: set<(nat, nat)>, S: set<nat>, x: nat, y: nat)
    requires forall e | e in E :: (e.0 in S <==> e.1 in S)
    requires x in S && Reach(E, x, y)
    ensures y in S
  {
    var p :| Walk(E, p) && p[0] == x && p[|p| - 1] == y;
    var k := 0;
    while k < |p| - 1
      invariant 0 <= k <= |p| - 1 && p[k] in S
    {
      if (p[k], p[k + 1]) in E {
        assert (p[k], p[k + 1]).0 in S;
      } else {
        assert (p[k + 1], p[k]).1 in S;
      }
      k := k + 1;
    }
  }

  /** Everything reachable from inside a set that no edge leaves is inside it. */
  lemma ReachStaysIn(E: set<(nat, nat)>, S: set<nat>, x: nat)
    requires forall e | e in E :: (e.0 in S <==> e.1 in S)
    requires x in S
    ensures forall y | Reach(E, x, y) :: y in S
  {
    forall y | Reach(E, x, y)
      ensures y in S
    {
      ReachClosed(E, S, x, y);
    }
  }

  /** Two disjoint sets that no edge leaves are not connected to each other. */
  lemma Unreachable(E: set<(nat, nat)>, X: set<nat>, Y: set<nat>, a: nat, b: nat)
    requires forall e | e in E :: (e.0 in X <==> e.1 in X) && (e.0 in Y <==> e.1 in Y)
    requires X !! Y && a in X && b in Y
    ensures !Reach(E, a, b) && !Reach(E, b, a)
  {
    ReachStaysIn(E, X, a);
    ReachStaysIn(E, Y, b);
  }

  /** Reachability carries over to a second set of edges that connects
      the two ends of every edge of the first. */
  lemma {:induction false} ReachVia(E: set<(nat, nat)>, F: set<(nat, nat)>, x: nat, y: nat)
    requires forall e | e in E :: Reach(F, e.0, e.1)
    requires Reach(E, x, y)
    ensures Reach(F, x, y)
  {
    var p :| Walk(E, p) && p[0] == x && p[|p| - 1] == y;
    var k := 0;
    ReachRefl(F, x);
    while k < |p| - 1
      invariant 0 <= k <= |p| - 1 && Reach(F, x, p[k])
    {
      var a, b := p[k], p[k + 1];
      if (a, b) in E {
        assert Reach(F, (a, b).0, (a, b).1);
      } else {
        assert Reach(F, (b, a).0, (b, a).1);
        ReachSym(F, b, a);
      }
      ReachTrans(F, x, a, b);
      k := k + 1;
    }
  }

  /** A walk that may use one more edge (x, y) either does without it or
      goes through it once, in one direction or the other. */
  lemma {:induction false} ReachAdd(E: set<(nat, nat)>, x: nat, y: nat, a: nat, b: nat)
    requires Reach(E + {(x, y)}, a, b)
    ensures Reach(E, a, b) || (Reach(E, a, x) && Reach(E, y, b)) || (Reach(E, a, y) && Reach(E, x, b))
  {
    var F := E + {(x, y)};
    var p :| Walk(F, p) && p[0] == a && p[|p| - 1] == b;
    ReachRefl(E, a);
    // side 0: a ~ p[k]; side 1: a ~ x and y ~ p[k]; side 2: a ~ y and x ~ p[k]
    var k, side := 0, 0;
    while k < |p| - 1
      invariant 0 <= k <= |p| - 1 && 0 <= side <= 2
      invariant side == 0 ==> Reach(E, a, p[k])
      invariant side == 1 ==> Reach(E, a, x) && Reach(E, y, p[k])
      invariant side == 2 ==> Reach(E, a, y) && Reach(E, x, p[k])
    {
      var c, d := p[k], p[k + 1];
      assert Adjacent(F, c, d);
      if Adjacent(E, c, d) {
        if side == 0 {
          ReachStep(E, a, c, d);
        } else if side == 1 {
          ReachStep(E, y, c, d);
        } else {
          ReachStep(E, x, c, d);
        }
      } else {
        assert (c == x && d == y) || (c == y && d == x);
        if side == 0 {
          ReachRefl(E, d);
          side := if c == x then 1 else 2;
        } else if side == 1 {
          if c == x {
            ReachSym(E, y, c);
            ReachTrans(E, a, x, y);
          }
          side := 0;
        } else {
          if c == y {
            ReachSym(E, x, c);
            ReachTrans(E, a, y, x);
          }
          side := 0;
        }
      }
      k := k + 1;
    }
  }

  /** The edge (a, b) crosses from the side of `v` to the side of `u`:
      the edges of `S` connect one of its ends to `v` and the other to `u`. */
  ghost predicate Crosses(S: set<(nat, nat)>, a: nat, b: nat, v: nat, u: nat)
  {
    (Reach(S, v, a) && Reach(S, b, u)) || (Reach(S, v, b) && Reach(S, a, u))
  }

  /** Crossing does not depend on which side is named first. */
  lemma CrossesSym(S: set<(nat, nat)>, a: nat, b: nat, v: nat, u: nat)
    requires Crosses(S, a, b, v, u)
    ensures Crosses(S, a, b, u, v)
  {
    if Reach(S, v, a) && Reach(S, b, u) {
      ReachSym(S, v, a);
      ReachSym(S, b, u);
    } else {
      ReachSym(S, v, b);
      ReachSym(S, a, u);
    }
  }

  /** Exchanging the edge (v, u) for an edge (a, b) that crosses between
      their sides connects the same vertices. */
  lemma Exchange(S: set<(nat, nat)>, v: nat, u: nat, a: nat, b: nat, x: nat, y: nat)
    requires Crosses(S, a, b, v, u)
    ensures Reach(S + {(a, b)}, x, y) <==> Reach(S + {(v, u)}, x, y)
  {
    var Sab, Svu := S + {(a, b)}, S + {(v, u)};
    forall e | e in Sab
      ensures Reach(Svu, e.0, e.1)
    {
      if e == (a, b) {
        ReachRefl(Svu, v);
        ReachStep(Svu, v, v, u);
        if Reach(S, v, a) && Reach(S, b, u) {
          // a ~ v - u ~ b
          ReachMono(S, Svu, v, a);
          ReachMono(S, Svu, b, u);
          ReachSym(Svu, v, a);
          ReachTrans(Svu, a, v, u);
          ReachSym(Svu, b, u);
          ReachTrans(Svu, a, u, b);
        } else {
          // a ~ u - v ~ b
          ReachMono(S, Svu, v, b);
          ReachMono(S, Svu, a, u);
          ReachSym(Svu, v, u);
          ReachTrans(Svu, a, u, v);
          ReachTrans(Svu, a, v, b);
        }
      } else {
        ReachRefl(Svu, e.0);
        ReachStep(Svu, e.0, e.0, e.1);
      }
    }
    forall e | e in Svu
      ensures Reach(Sab, e.0, e.1)
    {
      if e == (v, u) {
        ReachRefl(Sab, a);
        ReachStep(Sab, a, a, b);
        if Reach(S, v, a) && Reach(S, b, u) {
          // v ~ a - b ~ u
          ReachMono(S, Sab, v, a);
          ReachMono(S, Sab, b, u);
          ReachTrans(Sab, v, a, b);
          ReachTrans(Sab, v, b, u);
        } else {
          // v ~ b - a ~ u
          ReachMono(S, Sab, v, b);
          ReachMono(S, Sab, a, u);
          ReachSym(Sab, a, b);
          ReachTrans(Sab, v, b, a);
          ReachTrans(Sab, v, a, u);
        }
      } else {
        ReachRefl(Sab, e.0);
        ReachStep(Sab, e.0, e.0, e.1);
      }
    }
    if Reach(Sab, x, y) {
      ReachVia(Sab, Svu, x, y);
    }
    if Reach(Svu, x, y) {
      ReachVia(Svu, Sab, x, y);
    }
  }
}

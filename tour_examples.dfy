/**
 * The forest of five vertices of the forest test (test/ETFtests.cpp),
 * replayed on the tours the model's `link` and `cut` produce: `link`
 * joins the two opened tours (ForestSteps.Opened, ForestSteps.LinkStep),
 * `cut` leaves the outer and the inner side of the pair of mates
 * (EulerTour.CutOuter, EulerTour.CutInner, ForestSteps.CutStep), and the
 * iterator yields the vertices of the occurrences that count edges. The
 * vertex `i` starts as the lone occurrence `i`; new occurrences are
 * numbered from 5 on, as the forest's counter hands them out.
 */
module TourExamples {

  import opened TourTree
  import opened EulerTour
  import opened ForestSteps
  import opened TourIteration

  /** The vertices of a tour, in tour order: what `str()` prints of it. */
  function Word(s: seq<Entry>): (w: seq<nat>)
    ensures |w| == |s| && forall i | 0 <= i < |s| :: w[i] == s[i].v
  {
    if s == [] then [] else [s[0].v] + Word(s[1..])
  }

  /** A tour spells `w` when its occurrences are of the vertices of `w`,
      in order. */
  lemma Spells(s: seq<Entry>, w: seq<nat>)
    requires |s| == |w| && forall i | 0 <= i < |s| :: s[i].v == w[i]
    ensures Word(s) == w
  {
  }

  /** The first occurrence of vertex `v`, counting `c` edges. */
  function Lone(v: nat, c: int): Entry
  {
    Entry(v, v, c)
  }

  /** After `link(0, 1)` and `link(2, 3)`. */
  ghost function Tour01(): seq<Entry>
  {
    Opened([Lone(0, 0)], 0, 5) + Opened([Lone(1, 0)], 0, 5)
  }

  ghost function Tour23(): seq<Entry>
  {
    Opened([Lone(2, 0)], 0, 5) + Opened([Lone(3, 0)], 0, 5)
  }

  /** After `link(1, 3)`: 1 and 3 are made roots from their first
      occurrences, each tour gains a new occurrence of its root, 5 and 6,
      and these two are the mates that stand for the new edge. */
  ghost function Tour101323(): seq<Entry>
  {
    Opened(Tour01(), 1, 5) + Opened(Tour23(), 1, 6)
  }

  /** After `link(4, 3)`, 3 made root from its first occurrence, which
      sits at position 3 of the tour, and given the new occurrence 7. */
  ghost function Tour43231013(): seq<Entry>
  {
    Opened([Lone(4, 0)], 0, 7) + Opened(Tour101323(), 3, 7)
  }

  lemma LinkLoneVertices()
    ensures Word(Tour01()) == [0, 1] && Word(Tour23()) == [2, 3]
  {
  }

  /** The tour after `link(1, 3)`, entry by entry. */
  lemma Tour101323Entries()
    ensures Tour101323() == [Lone(1, 0), Lone(0, 0), Entry(5, 1, 0), Lone(3, 0), Lone(2, 0), Entry(6, 3, 0)]
  {
    assert Tour01() == [Lone(0, 0), Lone(1, 0)];
    assert Tour23() == [Lone(2, 0), Lone(3, 0)];
  }

  /** "101323": the tour of 1 followed by the tour of 3, each closed by a
      new occurrence of its root; the two new occurrences are its last
      entries, 5 and 6. */
  lemma LinkLeaves()
    ensures Word(Tour101323()) == [1, 0, 1, 3, 2, 3]
    ensures Tour101323()[2].id == 5 && Tour101323()[5].id == 6
  {
    Tour101323Entries();
    Spells(Tour101323(), [1, 0, 1, 3, 2, 3]);
  }

  /** The tour after `link(4, 3)`, entry by entry. */
  lemma Tour43231013Entries()
    ensures Tour43231013() == [Lone(4, 0), Lone(3, 0), Lone(2, 0), Entry(6, 3, 0), Lone(1, 0), Lone(0, 0), Entry(5, 1, 0), Entry(7, 3, 0)]
  {
    Tour101323Entries();
    var s := Tour101323();
    var r := [Lone(3, 0), Lone(2, 0), Entry(6, 3, 0), Lone(1, 0), Lone(0, 0), Entry(5, 1, 0)];
    assert Rotated(s, 3) == r;
    assert Opened(s, 3, 7) == r + [Entry(7, 3, 0)];
    assert Opened([Lone(4, 0)], 0, 7) == [Lone(4, 0)];
  }

  /** "43231013": a lone vertex gains no occurrence when it is linked. */
  lemma LinkLoneToTree()
    ensures Word(Tour43231013()) == [4, 3, 2, 3, 1, 0, 1, 3]
    ensures Tour43231013()[3].id == 6 && Tour43231013()[6].id == 5
  {
    Tour43231013Entries();
    Spells(Tour43231013(), [4, 3, 2, 3, 1, 0, 1, 3]);
  }

  /** Cutting the edge of `link(1, 3)`, whose mates 6 and 5 sit at
      positions 3 and 6, leaves "4323" and "10". */
  lemma CutLinkedEdge()
    ensures Word(CutOuter(Tour43231013(), 3, 6)) == [4, 3, 2, 3]
    ensures Word(CutInner(Tour43231013(), 3, 6)) == [1, 0]
  {
    LinkLoneToTree();
  }

  /** `changeEdges(v, c)` on a tour: the counter of the occurrence with
      identity `id` becomes `c`, as `TourTree.Bumped` does to a tree whose
      identities are distinct. Linking never moves `any`, so `any[v]` is
      still the lone occurrence `v` here. */
  function ChangedEdges(s: seq<Entry>, id: nat, c: int): seq<Entry>
  {
    seq(|s|, i requires 0 <= i < |s| => if s[i].id == id then s[i].(edges := c) else s[i])
  }

  /** On a tree whose identities are distinct, `ChangedEdges` of its tour
      is the tour `SetEdges` leaves. */
  lemma ChangedEdgesIsBumped(t: Tree, id: nat, c: int)
    requires id in Ids(t)
    requires forall i, j | 0 <= i < j < |Seq(t)| :: Seq(t)[i].id != Seq(t)[j].id
    ensures ChangedEdges(Seq(t), id, c) == Bumped(t, id, c)
  {
    var b := Bumped(t, id, c);
    var p := Pos(Locate(t, id));
    forall i | 0 <= i < |Seq(t)|
      ensures ChangedEdges(Seq(t), id, c)[i] == Bumped(t, id, c)[i]
    {
      if i != p {
        assert Seq(t)[i].id != id by {
          if i < p { assert Seq(t)[i].id != Seq(t)[p].id; } else { assert Seq(t)[p].id != Seq(t)[i].id; }
        }
      }
    }
  }

  /** After `changeEdges(2, 1)`, `changeEdges(4, 1)` and `changeEdges(2, 0)`
      on the tour "43231013", only the occurrence of 4 counts edges. */
  lemma ChangedTour()
    ensures ChangedEdges(ChangedEdges(ChangedEdges(Tour43231013(), 2, 1), 4, 1), 2, 0)
         == [Lone(4, 1), Lone(3, 0), Lone(2, 0), Entry(6, 3, 0), Lone(1, 0), Lone(0, 0), Entry(5, 1, 0), Entry(7, 3, 0)]
  {
    Tour43231013Entries();
    var s0 := Tour43231013();
    var s1 := ChangedEdges(s0, 2, 1);
    assert s1 == s0[2 := Lone(2, 1)];
    var s2 := ChangedEdges(s1, 4, 1);
    assert s2 == s1[0 := Lone(4, 1)];
    assert ChangedEdges(s2, 2, 0) == s2[2 := Lone(2, 0)];
  }

  /** The iterator of that tree then yields the one vertex 4. */
  lemma IteratorYieldsCounted()
    ensures ActiveVertices(ChangedEdges(ChangedEdges(ChangedEdges(Tour43231013(), 2, 1), 4, 1), 2, 0)) == [4]
  {
    ChangedTour();
  }
}

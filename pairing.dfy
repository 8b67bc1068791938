/**
 * The connecting edge chosen when a blossom is expanded: among the pairs
 * `(p, q)` with `p` deep in the blossom and `q` deep in its mate, joined by an
 * edge that is not blocked, the one whose edge has the smallest index. Taking
 * the smallest index makes the choice independent of which side of a mated
 * pair of blossoms is expanded first.
 */
module Pairing {
  import opened Graphs

  /** `x` and `y` are joined by an edge whose slack does not block it. */
  predicate Usable(g: Graph, s: seq<real>, x: int, y: int) {
    g.Adjacent(x, y) && g.EdgeIndex(x, y) < |s| && !(s[g.EdgeIndex(x, y)] > 0.0)
  }

  /**
   * `(p, q)` is the usable pair of least edge index between `du` and `dv`,
   * or `(-1, -1)` when no pair between them is usable.
   */
  ghost predicate IsMinPair(g: Graph, s: seq<real>, du: seq<int>, dv: seq<int>, p: int, q: int) {
    if p == -1 then
      q == -1 && forall x, y :: x in du && y in dv ==> !Usable(g, s, x, y)
    else
      && p in du && q in dv && Usable(g, s, p, q)
      && forall x, y :: x in du && y in dv && Usable(g, s, x, y) ==> g.EdgeIndex(p, q) <= g.EdgeIndex(x, y)
  }

  /** Usability does not depend on the direction in which the pair is named. */
  lemma UsableSymmetric(g: Graph, s: seq<real>, x: int, y: int)
    ensures Usable(g, s, x, y) == Usable(g, s, y, x)
    ensures g.EdgeIndex(x, y) == g.EdgeIndex(y, x)
  {
    g.EdgeIndexSymmetric(x, y);
  }

  /** Between two single vertices joined by a usable edge, that edge is the choice. */
  lemma MinPairOfSingles(g: Graph, s: seq<real>, x: int, y: int, p: int, q: int)
    requires IsMinPair(g, s, [x], [y], p, q) && Usable(g, s, x, y)
    ensures p == x && q == y
  {
    assert x in [x] && y in [y];
  }

  /** The choice seen from the mate's side is the same pair, reversed. */
  lemma MinPairSymmetric(g: Graph, s: seq<real>, du: seq<int>, dv: seq<int>, p: int, q: int)
    requires g.Valid()
    requires IsMinPair(g, s, du, dv, p, q)
    ensures p == -1 ==> IsMinPair(g, s, dv, du, -1, -1)
    ensures p != -1 ==> IsMinPair(g, s, dv, du, q, p)
  {
    forall x, y | x in dv && y in du
      ensures Usable(g, s, x, y) == Usable(g, s, y, x) && g.EdgeIndex(x, y) == g.EdgeIndex(y, x)
    {
      UsableSymmetric(g, s, x, y);
    }
    if p != -1 {
      UsableSymmetric(g, s, p, q);
      g.NeighboursAreVertices(p, q);
    }
  }

  /** Between two disjoint vertex lists of a valid graph there is only one minimum pair. */
  lemma MinPairUnique(g: Graph, s: seq<real>, du: seq<int>, dv: seq<int>, p: int, q: int, p': int, q': int)
    requires g.Valid()
    requires forall x :: x in du ==> x !in dv
    requires IsMinPair(g, s, du, dv, p, q) && IsMinPair(g, s, du, dv, p', q')
    ensures p == p' && q == q'
  {
    if p != -1 && p' != -1 {
      assert g.EdgeIndex(p, q) == g.EdgeIndex(p', q');
      g.SameIndexSameEnds(p, q, p', q');
    }
  }

  /**
   * Expanding either blossom of a mated pair settles on the same edge: the pair
   * chosen from `u`'s side and the pair chosen from `v`'s side are the same
   * two vertices.
   */
  lemma ExpansionAgrees(g: Graph, s: seq<real>, du: seq<int>, dv: seq<int>, p: int, q: int, p': int, q': int)
    requires g.Valid()
    requires forall x :: x in du ==> x !in dv
    requires IsMinPair(g, s, du, dv, p, q)
    requires IsMinPair(g, s, dv, du, q', p')
    ensures p == p' && q == q'
  {
    MinPairSymmetric(g, s, dv, du, q', p');
    if q' == -1 {
      MinPairUnique(g, s, du, dv, p, q, -1, -1);
    } else {
      MinPairUnique(g, s, du, dv, p, q, p', q');
    }
  }
}

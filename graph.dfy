/**
 * The read-only graph the matching engine is built over. The engine uses it
 * through five queries: the vertex count, the edge list, the index of the edge
 * joining two vertices, adjacency, and the adjacency list of a vertex. Edges
 * are kept in the order they were added; a vertex's adjacency list follows
 * that order.
 */
module Graphs {

  /** The two endpoints of an edge, in the order the edge was added. */
  type Edge = (int, int)

  /** True when edge `e` connects `u` and `v` (in either direction). */
  predicate Joins(e: Edge, u: int, v: int) {
    e == (u, v) || e == (v, u)
  }

  datatype Graph = Graph(n: nat, edges: seq<Edge>)
  {
    /** Endpoints are vertices `0..n-1`, no self-loops, no parallel edges. */
    ghost predicate Valid() {
      && (forall i :: 0 <= i < |edges| ==>
            0 <= edges[i].0 < n && 0 <= edges[i].1 < n && edges[i].0 != edges[i].1)
      && (forall i, j :: 0 <= i < j < |edges| ==> !Joins(edges[j], edges[i].0, edges[i].1))
    }

    /** The first edge at position `k` or later that joins `u` and `v`, or -1. */
    function FindFrom(u: int, v: int, k: nat): (r: int)
      ensures r == -1 || (k <= r < |edges| && Joins(edges[r], u, v))
      ensures r == -1 ==> forall j :: k <= j < |edges| ==> !Joins(edges[j], u, v)
      ensures r != -1 ==> forall j :: k <= j < r ==> !Joins(edges[j], u, v)
      decreases |edges| - k
    {
      if k >= |edges| then -1
      else if Joins(edges[k], u, v) then k
      else FindFrom(u, v, k + 1)
    }

    /** The index of the edge joining `u` and `v`; -1 when they are not adjacent. */
    function EdgeIndex(u: int, v: int): (r: int)
      ensures -1 <= r < |edges|
      ensures r == -1 <==> forall j :: 0 <= j < |edges| ==> !Joins(edges[j], u, v)
      ensures r != -1 ==> Joins(edges[r], u, v)
    {
      FindFrom(u, v, 0)
    }

    /** The adjacency-matrix query. */
    predicate Adjacent(u: int, v: int) {
      EdgeIndex(u, v) != -1
    }

    /** The neighbours of `u` through edges at positions `k` and later, in edge order. */
    function NeighboursFrom(u: int, k: nat): (r: seq<int>)
      ensures forall x :: x in r <==> exists j :: k <= j < |edges| && Joins(edges[j], u, x)
      decreases |edges| - k
    {
      if k >= |edges| then []
      else
        var e := edges[k];
        var rest := NeighboursFrom(u, k + 1);
        if e.0 == u then [e.1] + rest
        else if e.1 == u then [e.0] + rest
        else rest
    }

    /** The adjacency list of `u`, in the order the edges were added. */
    function AdjList(u: int): (r: seq<int>)
      ensures forall x :: x in r <==> Adjacent(u, x)
    {
      NeighboursFrom(u, 0)
    }

    /** The endpoints of the edges give rise to a symmetric edge lookup. */
    lemma EdgeIndexSymmetric(u: int, v: int)
      ensures EdgeIndex(u, v) == EdgeIndex(v, u)
    {
      SymmetricFrom(u, v, 0);
    }

    lemma {:induction false} SymmetricFrom(u: int, v: int, k: nat)
      ensures FindFrom(u, v, k) == FindFrom(v, u, k)
      decreases |edges| - k
    {
      if k < |edges| && !Joins(edges[k], u, v) {
        SymmetricFrom(u, v, k + 1);
      }
    }

    /** In a valid graph an edge index determines its endpoints, up to order. */
    lemma SameIndexSameEnds(a: int, b: int, c: int, d: int)
      requires Valid()
      requires EdgeIndex(a, b) != -1 && EdgeIndex(a, b) == EdgeIndex(c, d)
      ensures (a == c && b == d) || (a == d && b == c)
    {
    }

    /** In a valid graph, neighbours are vertices. */
    lemma NeighboursAreVertices(u: int, x: int)
      requires Valid() && Adjacent(u, x)
      ensures 0 <= x < n && 0 <= u < n && u != x
    {
    }
  }
}

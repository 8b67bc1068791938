/**
 * The value-level side of the greedy warm start: vertex degrees over the
 * usable edges, and the order in which vertices are taken (least degree
 * first, as a binary heap of degrees hands them out).
 */
module Greedy {
  import opened Graphs
  import opened Results

  /** An edge is usable while its slack is not positive. */
  predicate Unblocked(s: seq<real>, i: int)
    requires 0 <= i < |s|
  {
    s[i] <= 0.0
  }

  /** The number of usable edges among the first `k` that touch `x`. */
  function Degree(g: Graph, s: seq<real>, x: int, k: nat): (d: nat)
    requires k <= |g.edges| && |s| == |g.edges|
    ensures d <= k
  {
    if k == 0 then 0
    else Degree(g, s, x, k - 1) + (if Unblocked(s, k - 1) && Touches(g, k - 1, x) then 1 else 0)
  }

  /** The degree of every vertex over all edges. */
  function Degrees(g: Graph, s: seq<real>): (d: seq<int>)
    requires |s| == |g.edges|
    ensures |d| == g.n && forall x :: 0 <= x < g.n ==> d[x] == Degree(g, s, x, |g.edges|)
  {
    seq(g.n, x => Degree(g, s, x, |g.edges|))
  }

  /** The number of usable edges among the first `k`. */
  function UnblockedCount(s: seq<real>, k: nat): (c: nat)
    requires k <= |s|
    ensures c <= k
  {
    if k == 0 then 0 else UnblockedCount(s, k - 1) + (if Unblocked(s, k - 1) then 1 else 0)
  }

  /** The degrees of vertices `0..j-1` over the first `k` edges, added up. */
  function DegreeSum(g: Graph, s: seq<real>, j: nat, k: nat): nat
    requires k <= |g.edges| && |s| == |g.edges|
  {
    if j == 0 then 0 else DegreeSum(g, s, j - 1, k) + Degree(g, s, j - 1, k)
  }

  /** Adding edge `k` to the count raises the sum of the first `j` degrees by the endpoints of `k` below `j`. */
  lemma {:induction false} DegreeSumStep(g: Graph, s: seq<real>, j: nat, k: nat)
    requires k < |g.edges| && |s| == |g.edges|
    ensures DegreeSum(g, s, j, k + 1) == DegreeSum(g, s, j, k)
      + (if Unblocked(s, k) && g.edges[k].0 < j && 0 <= g.edges[k].0 then 1 else 0)
      + (if Unblocked(s, k) && g.edges[k].1 < j && 0 <= g.edges[k].1 && g.edges[k].1 != g.edges[k].0 then 1 else 0)
  {
    if j > 0 {
      DegreeSumStep(g, s, j - 1, k);
    }
  }

  /** Handshake: the degrees of all vertices add up to twice the number of usable edges. */
  lemma {:induction false} Handshake(g: Graph, s: seq<real>, k: nat)
    requires g.Valid() && k <= |g.edges| && |s| == |g.edges|
    ensures DegreeSum(g, s, g.n, k) == 2 * UnblockedCount(s, k)
  {
    if k == 0 {
      SumOfZero(g, s, g.n);
    } else {
      Handshake(g, s, k - 1);
      DegreeSumStep(g, s, g.n, k - 1);
    }
  }

  /** Over no edges every degree, and so their sum, is zero. */
  lemma {:induction false} SumOfZero(g: Graph, s: seq<real>, j: nat)
    requires |s| == |g.edges|
    ensures DegreeSum(g, s, j, 0) == 0
  {
    if j > 0 {
      SumOfZero(g, s, j - 1);
    }
  }

  /**
   * The heap's `DeleteMin`: the position in `pending` of a vertex of least
   * degree (the first such, where the heap leaves ties open).
   */
  method DeleteMin(pending: seq<int>, degree: seq<int>) returns (k: nat)
    requires pending != [] && forall j :: 0 <= j < |pending| ==> 0 <= pending[j] < |degree|
    ensures k < |pending|
    ensures forall j :: 0 <= j < |pending| ==> degree[pending[k]] <= degree[pending[j]]
  {
    k := 0;
    for j := 1 to |pending|
      invariant k < j
      invariant forall l :: 0 <= l < j ==> degree[pending[k]] <= degree[pending[l]]
    {
      if degree[pending[j]] < degree[pending[k]] {
        k := j;
      }
    }
  }

  /** Taking the element at `k` out of `pending` keeps every other element and adds none. */
  lemma RemoveAt(pending: seq<int>, k: nat)
    requires k < |pending|
    ensures var r := pending[..k] + pending[k + 1..];
      && (forall x :: x in pending && x != pending[k] ==> x in r)
      && (forall j :: 0 <= j < |r| ==> r[j] in pending)
  {
    forall x | x in pending && x != pending[k]
      ensures x in pending[..k] + pending[k + 1..]
    {
      var j :| 0 <= j < |pending| && pending[j] == x;
      if j < k {
        assert (pending[..k] + pending[k + 1..])[j] == x;
      } else {
        assert (pending[..k] + pending[k + 1..])[j - 1] == x;
      }
    }
  }

  /**
   * The heap after `order` has been drawn from it and `pending` is left:
   * every vertex is in one of the two, `order` ascends by degree, and
   * nothing drawn outranks anything left.
   */
  ghost predicate Drawn(order: seq<int>, pending: seq<int>, degree: seq<int>)
  {
    && (forall j :: 0 <= j < |pending| ==> 0 <= pending[j] < |degree|)
    && (forall i :: 0 <= i < |order| ==> 0 <= order[i] < |degree|)
    && (forall u :: 0 <= u < |degree| ==> u in order || u in pending)
    && (forall i, j :: 0 <= i < |order| && 0 <= j < |pending| ==> degree[order[i]] <= degree[pending[j]])
    && (forall i, j :: 0 <= i < j < |order| ==> degree[order[i]] <= degree[order[j]])
  }

  /** Before anything is drawn, every vertex is pending. */
  lemma DrawnStart(degree: seq<int>)
    ensures Drawn([], seq(|degree|, x => x), degree)
  {
    var pending := seq(|degree|, x => x);
    forall u | 0 <= u < |degree|
      ensures u in pending
    {
      assert pending[u] == u;
    }
  }

  /** Drawing a pending vertex of least degree keeps `Drawn`. */
  lemma DrawnStep(order: seq<int>, pending: seq<int>, degree: seq<int>, k: nat)
    requires Drawn(order, pending, degree) && k < |pending|
    requires forall j :: 0 <= j < |pending| ==> degree[pending[k]] <= degree[pending[j]]
    ensures Drawn(order + [pending[k]], pending[..k] + pending[k + 1..], degree)
  {
    RemoveAt(pending, k);
  }

  /**
   * The warm start may mate `v` to vertex `u`: they are adjacent through an
   * unblocked edge, lie in different outer blossoms, and `v`'s outer blossom
   * is unmatched. `outer` and `mate` are the columns of the slot table.
   */
  predicate Fits(g: Graph, s: seq<real>, outer: seq<int>, mate: seq<int>, u: int, v: int)
    requires |s| == |g.edges| && 0 <= u < |outer|
  {
    && g.Adjacent(u, v) && 0 <= v < g.n && v < |outer| && Unblocked(s, g.EdgeIndex(u, v))
    && outer[u] != outer[v] && 0 <= outer[v] < |mate| && mate[outer[v]] == -1
  }

  /**
   * The first of the candidates `adj[l]` with `ok[l]` of least degree, in
   * the order given; -1 when there is none.
   */
  method LeastDegree(adj: seq<int>, ok: seq<bool>, degree: seq<int>) returns (best: int)
    requires |ok| == |adj|
    requires forall l :: 0 <= l < |adj| && ok[l] ==> 0 <= adj[l] < |degree|
    ensures best == -1 <==> forall l :: 0 <= l < |adj| ==> !ok[l]
    ensures best != -1 ==>
      exists l :: && 0 <= l < |adj| && ok[l] && adj[l] == best
                  && (forall l' :: 0 <= l' < l && ok[l'] ==> degree[best] < degree[adj[l']])
    ensures best != -1 ==> forall l :: 0 <= l < |adj| && ok[l] ==> degree[best] <= degree[adj[l]]
  {
    best := -1;
    ghost var at := -1;
    for j := 0 to |adj|
      invariant best == -1 <==> forall l :: 0 <= l < j ==> !ok[l]
      invariant best != -1 ==> 0 <= best < |degree|
      invariant best != -1 ==> forall l :: 0 <= l < j && ok[l] ==> degree[best] <= degree[adj[l]]
      invariant best != -1 ==> && 0 <= at < j && ok[at] && adj[at] == best
                               && forall l' :: 0 <= l' < at && ok[l'] ==> degree[best] < degree[adj[l']]
    {
      if ok[j] && (best == -1 || degree[adj[j]] < degree[best]) {
        best, at := adj[j], j;
      }
    }
  }

  /**
   * Scans the neighbours of `u` in adjacency order and keeps the first
   * fitting one of least degree; -1 when none fits.
   */
  method PickPartner(g: Graph, s: seq<real>, outer: seq<int>, mate: seq<int>, u: int, degree: seq<int>) returns (best: int)
    requires g.Valid() && |s| == |g.edges| && 0 <= u < |outer| && |degree| == g.n
    ensures best == -1 <==> forall v :: !Fits(g, s, outer, mate, u, v)
    ensures best != -1 ==> Fits(g, s, outer, mate, u, best)
    ensures best != -1 ==> forall v :: Fits(g, s, outer, mate, u, v) ==> degree[best] <= degree[v]
  {
    var adj := g.AdjList(u);
    var ok := seq(|adj|, l requires 0 <= l < |adj| => Fits(g, s, outer, mate, u, adj[l]));
    best := LeastDegree(adj, ok, degree);
    forall v | Fits(g, s, outer, mate, u, v)
      ensures exists l :: 0 <= l < |adj| && adj[l] == v && ok[l]
    {
      assert v in adj;
    }
  }
}

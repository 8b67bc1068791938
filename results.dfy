/**
 * Reading a matching off the `mate` array: the selected edges, what they
 * cover, and their total cost.
 */
module Results {
  import opened Graphs

  /** Edge `i` is read off as matched: the mate of its first endpoint is its second endpoint. */
  predicate Selected(g: Graph, mate: seq<int>, i: int)
    requires 0 <= i < |g.edges|
  {
    0 <= g.edges[i].0 < |mate| && mate[g.edges[i].0] == g.edges[i].1
  }

  /** The scan that reads the selected edges off `mate`, in ascending order of index. */
  method ReadSelected(g: Graph, mate: seq<int>) returns (ids: seq<int>)
    requires forall i :: 0 <= i < |g.edges| ==> 0 <= g.edges[i].0 < |mate|
    ensures ids == SelectedUpTo(g, mate, |g.edges|)
  {
    ids := [];
    for i := 0 to |g.edges|
      invariant ids == SelectedUpTo(g, mate, i)
    {
      var (u, v) := g.edges[i];
      if mate[u] == v {
        ids := ids + [i];
      }
    }
  }

  /** The selected edges among the first `k`, in ascending order of index. */
  function SelectedUpTo(g: Graph, mate: seq<int>, k: nat): (r: seq<int>)
    requires k <= |g.edges|
    ensures forall j :: 0 <= j < |r| ==> 0 <= r[j] < k && Selected(g, mate, r[j])
    ensures forall j, l :: 0 <= j < l < |r| ==> r[j] < r[l]
    ensures forall i :: 0 <= i < k && Selected(g, mate, i) ==> i in r
  {
    if k == 0 then []
    else
      var r := SelectedUpTo(g, mate, k - 1);
      if Selected(g, mate, k - 1) then r + [k - 1] else r
  }

  /**
   * The mates of the original vertices form a matching of the graph: a
   * matched vertex's mate is a vertex adjacent to it, whose mate is it.
   */
  ghost predicate IsMatching(g: Graph, mate: seq<int>) {
    && g.n <= |mate|
    && forall x :: 0 <= x < g.n && mate[x] != -1 ==>
         0 <= mate[x] < g.n && mate[mate[x]] == x && g.Adjacent(x, mate[x])
  }

  /** `x` is an endpoint of edge `i`. */
  predicate Touches(g: Graph, i: int, x: int)
    requires 0 <= i < |g.edges|
  {
    g.edges[i].0 == x || g.edges[i].1 == x
  }

  /**
   * Read off a matching, the selected edges are pairwise disjoint, every
   * matched vertex lies on one of them and no unmatched vertex does; so every
   * vertex lies on at most one selected edge, and on exactly one when it is
   * matched.
   */
  lemma SelectedEdgesFormMatching(g: Graph, mate: seq<int>)
    requires g.Valid() && IsMatching(g, mate)
    ensures forall i, j ::
      (0 <= i < |g.edges| && 0 <= j < |g.edges| && i != j && Selected(g, mate, i) && Selected(g, mate, j)) ==>
      !Touches(g, j, g.edges[i].0) && !Touches(g, j, g.edges[i].1)
    ensures forall x :: 0 <= x < g.n && mate[x] != -1 ==>
      exists i :: 0 <= i < |g.edges| && Selected(g, mate, i) && Touches(g, i, x)
    ensures forall x, i :: 0 <= x < g.n && mate[x] == -1 && 0 <= i < |g.edges| && Selected(g, mate, i) ==>
      !Touches(g, i, x)
  {
    forall i, j | 0 <= i < |g.edges| && 0 <= j < |g.edges| && i != j && Selected(g, mate, i) && Selected(g, mate, j)
      ensures !Touches(g, j, g.edges[i].0) && !Touches(g, j, g.edges[i].1)
    {
      var (a, b) := g.edges[i];
      var (c, d) := g.edges[j];
      assert mate[a] == b && mate[b] == a;
      assert mate[c] == d && mate[d] == c;
    }
    forall x | 0 <= x < g.n && mate[x] != -1
      ensures exists i :: 0 <= i < |g.edges| && Selected(g, mate, i) && Touches(g, i, x)
    {
      var i := g.EdgeIndex(x, mate[x]);
      assert Touches(g, i, x) && Selected(g, mate, i);
    }
  }

  /** The sum of `cost[i]` over the edges `i` in `ids`, added in order. */
  function Total(ids: seq<int>, cost: seq<real>): real
    requires forall j :: 0 <= j < |ids| ==> 0 <= ids[j] < |cost|
  {
    if ids == [] then 0.0 else Total(ids[..|ids| - 1], cost) + cost[ids[|ids| - 1]]
  }

  /** The total grows by one term per edge appended. */
  lemma TotalSnoc(ids: seq<int>, cost: seq<real>, k: nat)
    requires forall j :: 0 <= j < |ids| ==> 0 <= ids[j] < |cost|
    requires k < |ids|
    ensures Total(ids[..k + 1], cost) == Total(ids[..k], cost) + cost[ids[k]]
  {
    assert ids[..k + 1][..k] == ids[..k];
  }
}

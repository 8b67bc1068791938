/**
 * The matching engine of mcpm: Edmonds' blossom algorithm with primal-dual
 * updates, computing a maximum-cardinality matching and a minimum-cost
 * perfect matching of a general graph.
 *
 * The source keeps one vector per attribute (`outer`, `deep`, `shallow`,
 * `tip`, `active`, `type`, `forest`, `root`, `blocked`, `dual`, `mate`,
 * `visited`), each of length `2n` and indexed by slot: `0..n-1` are the
 * original vertices, `n..2n-1` are blossom slots drawn from a free pool.
 * Here the same state is one array of per-slot records: field `x` of
 * `slots[i]` is the source's `x[i]`. Every operation updates that array in
 * place.
 */
module Mcpm {
  import opened Graphs
  import opened Duals
  import opened FreePool
  import opened Nesting
  import opened Pairing
  import opened Results
  import opened Forest
  import opened Greedy

  /** The attributes the source keeps, per slot, in parallel vectors. */
  datatype Slot = Slot(
    outer: int,          // the outermost blossom containing the slot (itself if none)
    deep: seq<int>,      // the original vertices nested, at any depth, in the slot
    shallow: seq<int>,   // the children of a blossom: its odd circuit, tip first
    tip: int,
    active: bool,        // the slot denotes a live vertex or blossom
    kind: Label,         // alternating-forest label (the source's `type`)
    forest: int,         // parent in the alternating forest: a vertex, or -1 at a root
    root: int,
    blocked: bool,       // a blocked blossom behaves as a single vertex
    dual: real,
    mate: int,           // the matching partner, or -1
    visited: bool)

  /** Slot `i` as `Clear` leaves it, in a graph of `n` vertices; `visited` is kept. */
  function ClearedSlot(i: int, n: nat, visited: bool): Slot {
    Slot(i, if i < n then [i] else [], [], i, i < n, Unlabeled, -1, i, false, 0.0, -1, visited)
  }

  /** The `active` flags of a sequence of slots. */
  function ActiveFlags(s: seq<Slot>): (r: seq<bool>)
    ensures |r| == |s| && forall i :: 0 <= i < |s| ==> r[i] == s[i].active
  {
    seq(|s|, i requires 0 <= i < |s| => s[i].active)
  }

  /** The outer blossom of every original vertex is matched. */
  ghost predicate OutersMatched(s: seq<Slot>, n: int) {
    forall i :: 0 <= i < n && i < |s| ==> 0 <= s[i].outer < |s| && s[s[i].outer].mate != -1
  }

  /** `b` is `a` with zero or more entries appended. */
  predicate Extends(a: seq<int>, b: seq<int>) {
    |a| <= |b| && b[..|a|] == a
  }

  lemma ExtendsTrans(a: seq<int>, b: seq<int>, c: seq<int>)
    requires Extends(a, b) && Extends(b, c)
    ensures Extends(a, c)
  {
    assert c[..|a|] == c[..|b|][..|a|];
  }

  /** Why a solve returns no matching. */
  datatype SolveError =
    | NoPerfectMatching  // the graph has no perfect matching
    | OutOfSteps         // the step budget of the model ran out

  datatype Result<T> = Success(value: T) | Failure(error: SolveError)

  /** The sum of the costs of the edges of a matching, added in order. */
  method TotalCost(ids: seq<int>, cost: seq<real>) returns (obj: real)
    requires forall j :: 0 <= j < |ids| ==> 0 <= ids[j] < |cost|
    ensures obj == Total(ids, cost)
  {
    obj := 0.0;
    for k := 0 to |ids|
      invariant obj == Total(ids[..k], cost)
    {
      TotalSnoc(ids, cost, k);
      obj := obj + cost[ids[k]];
    }
    assert ids[..|ids|] == ids;
  }

  /**
   * `b` differs from `a` at most in the fields that dismantling a blossom
   * writes: `outer`, `active`, `blocked` and `mate`.
   */
  predicate NestingOnly(a: Slot, b: Slot) {
    b == a.(outer := b.outer, active := b.active, blocked := b.blocked, mate := b.mate)
  }

  /**
   * `b` differs from `a` at most in the fields that expanding a blossom
   * writes: `outer`, `active` and `mate`, and `shallow` only by a reordering.
   */
  predicate ExpandOnly(a: Slot, b: Slot) {
    && b == a.(outer := b.outer, active := b.active, mate := b.mate, shallow := b.shallow)
    && multiset(b.shallow) == multiset(a.shallow)
  }

  /**
   * Going from slots `s0` and pool `f0` to `s1` and `f1` only dismantles
   * blossoms: the fields outside `NestingOnly` are kept, nothing is blocked
   * anew, a blocked slot with positive dual stays blocked, a deactivated slot
   * is unblocked, and the pool follows the activity flags (`Tracks`).
   */
  ghost predicate Dismantles(s0: seq<Slot>, f0: seq<int>, s1: seq<Slot>, f1: seq<int>) {
    && |s0| == |s1|
    && (forall x :: 0 <= x < |s0| ==>
          && NestingOnly(s0[x], s1[x])
          && (s1[x].blocked ==> s0[x].blocked)
          && (s0[x].blocked && s1[x].dual > 0.0 ==> s1[x].blocked)
          && (s0[x].active && !s1[x].active ==> !s1[x].blocked))
    && Tracks(ActiveFlags(s0), f0, ActiveFlags(s1), f1)
  }

  lemma DismantlesRefl(s: seq<Slot>, f: seq<int>)
    ensures Dismantles(s, f, s, f)
  {
    TracksRefl(ActiveFlags(s), f);
  }

  lemma DismantlesTrans(s0: seq<Slot>, f0: seq<int>, s1: seq<Slot>, f1: seq<int>, s2: seq<Slot>, f2: seq<int>)
    requires Dismantles(s0, f0, s1, f1) && Dismantles(s1, f1, s2, f2)
    ensures Dismantles(s0, f0, s2, f2)
  {
    TracksTrans(ActiveFlags(s0), f0, ActiveFlags(s1), f1, ActiveFlags(s2), f2);
  }

  /** `s1` is `s0` with the `outer` field of every slot in `xs` set to `b`. */
  ghost predicate OuterSet(s0: seq<Slot>, s1: seq<Slot>, xs: seq<int>, b: int) {
    && |s0| == |s1|
    && forall x :: 0 <= x < |s0| ==> s1[x] == if x in xs then s0[x].(outer := b) else s0[x]
  }

  /** Re-pointing `outer` fields after changing only `outer` fields changes only `outer` fields. */
  lemma OutersOnlyStep(s: seq<Slot>, s0: seq<Slot>, s1: seq<Slot>, xs: seq<int>, b: int)
    requires OutersOnly(s, s0) && OuterSet(s0, s1, xs, b)
    ensures OutersOnly(s, s1)
  {
    forall x | 0 <= x < |s|
      ensures s1[x] == s[x].(outer := s1[x].outer)
    {
      if x in xs {
        assert s1[x] == s0[x].(outer := b);
      } else {
        assert s1[x] == s0[x];
      }
    }
  }

  /** Re-pointing `outer` fields dismantles nothing else. */
  lemma DismantlesOuter(s0: seq<Slot>, f: seq<int>, s1: seq<Slot>, xs: seq<int>, b: int)
    requires OuterSet(s0, s1, xs, b)
    ensures Dismantles(s0, f, s1, f)
  {
    assert ActiveFlags(s0) == ActiveFlags(s1);
    TracksRefl(ActiveFlags(s0), f);
  }

  /** Deactivating, unblocking and unmatching slot `t` and pushing it to the pool. */
  lemma DismantlesRelease(s: seq<Slot>, f: seq<int>, t: int)
    requires 0 <= t < |s| && !(s[t].blocked && s[t].dual > 0.0)
    ensures Dismantles(s, f, s[t := s[t].(active := false, blocked := false, mate := -1)], f + [t])
  {
    var s1 := s[t := s[t].(active := false, blocked := false, mate := -1)];
    TracksRelease(ActiveFlags(s), f, t);
    assert ActiveFlags(s1) == ActiveFlags(s)[t := false];
  }

  /** The `deep` lists of a sequence of slots. */
  function DeepLists(s: seq<Slot>): (r: seq<seq<int>>)
    ensures |r| == |s| && forall i :: 0 <= i < |s| ==> r[i] == s[i].deep
  {
    seq(|s|, i requires 0 <= i < |s| => s[i].deep)
  }

  /** The slots after `mate[u] := q` and then `mate[v] := p`. */
  function SetMates(s: seq<Slot>, u: int, v: int, p: int, q: int): (r: seq<Slot>)
    requires 0 <= u < |s| && 0 <= v < |s|
    ensures |r| == |s|
    ensures r[v].mate == p && (u != v ==> r[u].mate == q)
    ensures forall x :: 0 <= x < |s| ==> r[x] == s[x].(mate := r[x].mate)
    ensures forall x :: 0 <= x < |s| && x != u && x != v ==> r[x] == s[x]
  {
    var s1 := s[u := s[u].(mate := q)];
    s1[v := s1[v].(mate := p)]
  }

  /** `s1` differs from `s0` at most in the `mate` fields of the slots in `c`. */
  ghost predicate MatesOnly(s0: seq<Slot>, s1: seq<Slot>, c: seq<int>) {
    && |s0| == |s1|
    && (forall x :: 0 <= x < |s0| ==> s1[x] == s0[x].(mate := s1[x].mate))
    && (forall x :: 0 <= x < |s0| && x !in c ==> s1[x] == s0[x])
  }

  lemma MatesOnlyTrans(s0: seq<Slot>, s1: seq<Slot>, s2: seq<Slot>, c: seq<int>)
    requires MatesOnly(s0, s1, c) && MatesOnly(s1, s2, c)
    ensures MatesOnly(s0, s2, c)
  {
  }

  /** Setting the `mate` field of one more slot of `c` keeps `MatesOnly`. */
  lemma MatesOnlyStep(s0: seq<Slot>, s1: seq<Slot>, c: seq<int>, x: int, y: int)
    requires MatesOnly(s0, s1, c) && 0 <= x < |s1| && x in c
    ensures MatesOnly(s0, s1[x := s1[x].(mate := y)], c)
  {
  }

  /** `s1` differs from `s0` only in `mate` fields, and only where `s0` had none. */
  ghost predicate MatesAdded(s0: seq<Slot>, s1: seq<Slot>) {
    && |s0| == |s1|
    && forall x :: 0 <= x < |s0| ==>
         s1[x] == s0[x].(mate := s1[x].mate) && (s0[x].mate != -1 ==> s1[x].mate == s0[x].mate)
  }

  /** Mating two unmatched slots only adds mates. */
  lemma MatesAddedStep(s0: seq<Slot>, s1: seq<Slot>, a: int, b: int, p: int, q: int)
    requires MatesAdded(s0, s1) && 0 <= a < |s1| && 0 <= b < |s1|
    requires s1[a].mate == -1 && s1[b].mate == -1
    ensures MatesAdded(s0, SetMates(s1, a, b, p, q))
  {
  }

  /**
   * After the warm start has looked at vertex `u`: the outer blossom of `u`
   * is matched, or no vertex fits as its partner.
   */
  ghost predicate Settled(g: Graph, sl: seq<real>, s: seq<Slot>, u: int)
    requires |sl| == |g.edges| && 0 <= u < |s|
  {
    0 <= s[u].outer < |s| && (s[s[u].outer].mate != -1 || forall v :: !Fits(g, sl, OuterOf(s, |s|), MatesOf(s), u, v))
  }

  /** Adding mates keeps every vertex settled: a partner that no longer fits does not fit again. */
  lemma SettledKept(g: Graph, sl: seq<real>, s0: seq<Slot>, s1: seq<Slot>, u: int)
    requires |sl| == |g.edges| && 0 <= u < |s0|
    requires MatesAdded(s0, s1) && Settled(g, sl, s0, u)
    ensures Settled(g, sl, s1, u)
  {
    assert OuterOf(s1, |s1|) == OuterOf(s0, |s0|);
    forall v | Fits(g, sl, OuterOf(s1, |s1|), MatesOf(s1), u, v)
      ensures Fits(g, sl, OuterOf(s0, |s0|), MatesOf(s0), u, v)
    {
    }
  }

  /**
   * One greedy step from an unmatched outer blossom of `u`: either nothing
   * fits and nothing changes, or the blossoms of `u` and of a fitting
   * `partner` are mated to each other. Either way only mates are added, and
   * `u` is settled.
   */
  lemma MatchSettles(g: Graph, sl: seq<real>, s0: seq<Slot>, u: int, partner: int, s1: seq<Slot>)
    requires |sl| == |g.edges| && 0 <= u < |s0| && 0 <= s0[u].outer < |s0| && s0[s0[u].outer].mate == -1
    requires partner == -1 ==> s1 == s0 && forall v :: !Fits(g, sl, OuterOf(s0, |s0|), MatesOf(s0), u, v)
    requires partner != -1 ==> && Fits(g, sl, OuterOf(s0, |s0|), MatesOf(s0), u, partner)
                               && s1 == SetMates(s0, s0[u].outer, s0[partner].outer, u, partner)
    ensures MatesAdded(s0, s1) && Settled(g, sl, s1, u)
  {
  }

  /** Every vertex of `xs` is settled. */
  ghost predicate AllSettled(g: Graph, sl: seq<real>, s: seq<Slot>, xs: seq<int>)
    requires |sl| == |g.edges|
  {
    forall i :: 0 <= i < |xs| ==> 0 <= xs[i] < |s| && Settled(g, sl, s, xs[i])
  }

  /**
   * `v` is a fitting partner for `u` in slots `s`, of least degree among all
   * fitting partners.
   */
  ghost predicate LeastFit(g: Graph, sl: seq<real>, degree: seq<int>, s: seq<Slot>, u: int, v: int)
    requires |sl| == |g.edges| && |degree| == g.n && 0 <= u < |s|
  {
    && Fits(g, sl, OuterOf(s, |s|), MatesOf(s), u, v)
    && forall w :: Fits(g, sl, OuterOf(s, |s|), MatesOf(s), u, w) ==> degree[v] <= degree[w]
  }

  /**
   * What `MatchGreedily(u, degree)` does, from slots `s0` to `s1`: only mates
   * are added and `u` ends settled; either nothing changes, or `u`'s outer
   * blossom was unmatched and is mated through `u` to the outer blossom of a
   * least-degree fitting partner `v`, which is mated back through `v`.
   */
  ghost predicate GreedyStep(g: Graph, sl: seq<real>, degree: seq<int>, s0: seq<Slot>, s1: seq<Slot>, u: int)
    requires |sl| == |g.edges| && |degree| == g.n
  {
    && 0 <= u < |s0| && |s1| == |s0|
    && MatesAdded(s0, s1) && Settled(g, sl, s1, u)
    && (|| s1 == s0
        || (&& 0 <= s0[u].outer < |s0| && s0[s0[u].outer].mate == -1
            && exists v :: LeastFit(g, sl, degree, s0, u, v) && s1 == SetMates(s0, s0[u].outer, s0[v].outer, u, v)))
  }

  /** `MatchGreedily`'s own contract, with the partner it returned, makes a `GreedyStep`. */
  lemma GreedyStepOf(g: Graph, sl: seq<real>, degree: seq<int>, s0: seq<Slot>, s1: seq<Slot>, u: int, partner: int)
    requires |sl| == |g.edges| && |degree| == g.n && 0 <= u < |s0| && |s1| == |s0|
    requires MatesAdded(s0, s1) && Settled(g, sl, s1, u)
    requires partner == -1 ==> s1 == s0
    requires partner != -1 ==>
      && 0 <= s0[u].outer < |s0| && s0[s0[u].outer].mate == -1
      && Fits(g, sl, OuterOf(s0, |s0|), MatesOf(s0), u, partner)
      && (forall v :: Fits(g, sl, OuterOf(s0, |s0|), MatesOf(s0), u, v) ==> degree[partner] <= degree[v])
      && s1 == SetMates(s0, s0[u].outer, s0[partner].outer, u, partner)
    ensures GreedyStep(g, sl, degree, s0, s1, u)
  {
    if partner != -1 {
      assert LeastFit(g, sl, degree, s0, u, partner);
    }
  }

  /**
   * `states` traces the vertices of `order` looked at in turn: step `j`
   * takes `states[j]` to `states[j + 1]` as `GreedyStep` says for vertex
   * `order[j]`.
   */
  ghost predicate GreedyTurns(g: Graph, sl: seq<real>, degree: seq<int>, order: seq<int>, states: seq<seq<Slot>>)
    requires |sl| == |g.edges| && |degree| == g.n
  {
    && |states| == |order| + 1
    && forall j :: 0 <= j < |order| ==> GreedyStep(g, sl, degree, states[j], states[j + 1], order[j])
  }

  lemma GreedyTurnsNext(g: Graph, sl: seq<real>, degree: seq<int>, order: seq<int>, states: seq<seq<Slot>>, u: int, s: seq<Slot>)
    requires |sl| == |g.edges| && |degree| == g.n
    requires GreedyTurns(g, sl, degree, order, states)
    requires GreedyStep(g, sl, degree, states[|order|], s, u)
    ensures GreedyTurns(g, sl, degree, order + [u], states + [s])
  {
    var order', states' := order + [u], states + [s];
    forall j | 0 <= j < |order'|
      ensures GreedyStep(g, sl, degree, states'[j], states'[j + 1], order'[j])
    {
      if j < |order| {
        assert states'[j] == states[j] && states'[j + 1] == states[j + 1] && order'[j] == order[j];
      }
    }
  }

  /**
   * The vertices of `order` looked at in turn from slots `s0`, traced by
   * `states`: only mates are added, and every vertex looked at is settled at
   * the end of the trace.
   */
  ghost predicate GreedySoFar(g: Graph, sl: seq<real>, degree: seq<int>, s0: seq<Slot>, order: seq<int>, states: seq<seq<Slot>>)
    requires |sl| == |g.edges| && |degree| == g.n
  {
    && GreedyTurns(g, sl, degree, order, states)
    && states[0] == s0
    && MatesAdded(s0, states[|order|])
    && AllSettled(g, sl, states[|order|], order)
  }

  lemma GreedySoFarNext(g: Graph, sl: seq<real>, degree: seq<int>, s0: seq<Slot>, order: seq<int>, states: seq<seq<Slot>>, u: int, s: seq<Slot>)
    requires |sl| == |g.edges| && |degree| == g.n
    requires GreedySoFar(g, sl, degree, s0, order, states)
    requires GreedyStep(g, sl, degree, states[|order|], s, u)
    ensures GreedySoFar(g, sl, degree, s0, order + [u], states + [s])
  {
    GreedyTurnsNext(g, sl, degree, order, states, u, s);
    AllSettledStep(g, sl, states[|order|], s, order, u);
  }

  /** Adding mates keeps the settled vertices settled, and one more joins them. */
  lemma AllSettledStep(g: Graph, sl: seq<real>, s0: seq<Slot>, s1: seq<Slot>, xs: seq<int>, u: int)
    requires |sl| == |g.edges| && AllSettled(g, sl, s0, xs) && MatesAdded(s0, s1)
    requires 0 <= u < |s1| && Settled(g, sl, s1, u)
    ensures AllSettled(g, sl, s1, xs + [u])
  {
    forall i | 0 <= i < |xs|
      ensures Settled(g, sl, s1, xs[i])
    {
      SettledKept(g, sl, s0, s1, xs[i]);
    }
  }

  /** Once every vertex has been drawn and settled, each one is settled. */
  lemma EverySettled(g: Graph, sl: seq<real>, s: seq<Slot>, order: seq<int>, d: seq<int>)
    requires |sl| == |g.edges| && AllSettled(g, sl, s, order) && Drawn(order, [], d) && |d| <= |s|
    ensures forall u :: 0 <= u < |d| ==> Settled(g, sl, s, u)
  {
    forall u | 0 <= u < |d|
      ensures Settled(g, sl, s, u)
    {
      assert u in order || u in [];
      var i :| 0 <= i < |order| && order[i] == u;
    }
  }

  /***** Growing the forest, on values *****/

  /** The slot indices the forest growth through the edge `u`-`v` reads are in range. */
  ghost predicate GrowsInRange(s: seq<Slot>, u: int, v: int) {
    && 0 <= u < |s| && 0 <= v < |s| && 0 <= s[u].outer < |s| && 0 <= s[v].outer < |s|
    && 0 <= s[s[v].outer].mate < |s| && 0 <= s[s[s[v].outer].mate].outer < |s|
  }

  /**
   * The slots after the forest grows through the edge from `u` to `v`, where
   * the outer blossom of `v` is unlabeled and matched to `vm`: that blossom
   * becomes ODD with parent `u`, the outer blossom of `vm` becomes EVEN with
   * parent `v`, both join the tree of `u`, and the latter is marked visited.
   */
  function GrowOnto(s: seq<Slot>, u: int, v: int): (r: seq<Slot>)
    requires GrowsInRange(s, u, v)
    ensures |r| == |s|
  {
    var ov := s[v].outer;
    var vm := s[ov].mate;
    var s1 := s[ov := s[ov].(forest := u, kind := Odd, root := s[s[u].outer].root)];
    var ovm := s1[vm].outer;
    var s2 := s1[ovm := s1[ovm].(forest := v, kind := Even, root := s1[s1[u].outer].root)];
    s2[ovm := s2[ovm].(visited := true)]
  }

  /**
   * Growing the forest changes no mate, no nesting and no activity: only the
   * labels, parents, roots and visit marks of the two outer blossoms. Both
   * join the tree of `u`; when they are distinct, the one of `v` is ODD
   * below `u` and the one of `vm` is EVEN below `v`.
   */
  lemma GrowOntoFacts(s: seq<Slot>, u: int, v: int)
    requires GrowsInRange(s, u, v)
    ensures var r, ov := GrowOnto(s, u, v), s[v].outer;
      var ovm := s[s[ov].mate].outer;
      && MatesOf(r) == MatesOf(s) && OuterOf(r, |r|) == OuterOf(s, |s|)
      && DeepLists(r) == DeepLists(s) && ActiveFlags(r) == ActiveFlags(s)
      && (forall x :: 0 <= x < |s| && x != ov && x != ovm ==> r[x] == s[x])
      && r[ov].root == s[s[u].outer].root && r[ovm].root == s[s[u].outer].root
      && r[ovm].kind == Even && r[ovm].forest == v && r[ovm].visited
      && (ov != ovm ==> r[ov].kind == Odd && r[ov].forest == u)
  {
    var r := GrowOnto(s, u, v);
    assert MatesOf(r) == MatesOf(s);
    assert OuterOf(r, |r|) == OuterOf(s, |s|);
    assert DeepLists(r) == DeepLists(s);
    assert ActiveFlags(r) == ActiveFlags(s);
  }

  /***** The dual update, on values *****/

  /**
   * What the dual update sees of edge `e` in slots `s`: the labels of the
   * outer blossoms of its ends and whether those differ. (Ends out of range,
   * which a ready state never has, read as an edge inside one blossom.)
   */
  function ViewOf(s: seq<Slot>, e: Edge): EdgeView {
    if 0 <= e.0 < |s| && 0 <= e.1 < |s| && 0 <= s[e.0].outer < |s| && 0 <= s[e.1].outer < |s| then
      EdgeView(s[s[e.0].outer].kind, s[s[e.1].outer].kind, s[e.0].outer != s[e.1].outer)
    else EdgeView(Unlabeled, Unlabeled, false)
  }

  function Views(s: seq<Slot>, g: Graph): (r: seq<EdgeView>)
    ensures |r| == |g.edges| && forall i :: 0 <= i < |g.edges| ==> r[i] == ViewOf(s, g.edges[i])
  {
    seq(|g.edges|, i requires 0 <= i < |g.edges| => ViewOf(s, g.edges[i]))
  }

  /** The `dual` fields of a sequence of slots. */
  function DualsOf(s: seq<Slot>): (r: seq<real>)
    ensures |r| == |s| && forall i :: 0 <= i < |s| ==> r[i] == s[i].dual
  {
    seq(|s|, i requires 0 <= i < |s| => s[i].dual)
  }

  /** Slot `i` is an active ODD outer blossom. */
  predicate OddOuter(w: Slot, i: int) {
    w.active && w.outer == i && w.kind == Odd
  }

  /** The blossom slots (`n` and above) that are active ODD outer blossoms. */
  function OddOuters(s: seq<Slot>, n: int): (r: seq<bool>)
    ensures |r| == |s| && forall i :: 0 <= i < |s| ==> r[i] == (n <= i && OddOuter(s[i], i))
  {
    seq(|s|, i requires 0 <= i < |s| => n <= i && OddOuter(s[i], i))
  }

  /**
   * The step of the dual update in state `s` with slacks `sl`: bounded by
   * the least EVEN-UNLABELED slack, half the least EVEN-EVEN slack between
   * two outer blossoms, and the least dual of an ODD outer blossom.
   */
  function DualStep(s: seq<Slot>, sl: seq<real>, g: Graph, n: int): real
    requires |sl| == |g.edges|
  {
    var views := Views(s, g);
    Step(Least(sl, Classes(views, true), |sl|), Least(sl, Classes(views, false), |sl|),
         Least(DualsOf(s), OddOuters(s, n), |s|))
  }

  /** The change a step `d` makes to the dual of slot `i`: up for EVEN, down for ODD active outer blossoms. */
  function DualDelta(w: Slot, i: int, d: real): real {
    if w.outer != i || !w.active then 0.0
    else if w.kind == Even then d
    else if w.kind == Odd then -d
    else 0.0
  }

  /** The slots after the duals moved by a step `d`. */
  function DualShifted(s: seq<Slot>, d: real): (r: seq<Slot>)
    ensures |r| == |s| && forall x :: 0 <= x < |s| ==> r[x] == s[x].(dual := s[x].dual + DualDelta(s[x], x, d))
  {
    seq(|s|, x requires 0 <= x < |s| => s[x].(dual := s[x].dual + DualDelta(s[x], x, d)))
  }

  /** Moving duals leaves what the edges see unchanged. */
  lemma ViewsIgnoreDuals(s: seq<Slot>, g: Graph, d: real)
    ensures Views(DualShifted(s, d), g) == Views(s, g)
  {
    assert forall i :: 0 <= i < |g.edges| ==> ViewOf(DualShifted(s, d), g.edges[i]) == ViewOf(s, g.edges[i]);
  }

  /**
   * The slack change is the reduced-cost change the dual moves imply: for an
   * edge between two active outer blossoms it is minus the sum of their
   * dual changes, and for an edge inside one outer blossom it is zero.
   */
  lemma SlackFollowsDuals(s: seq<Slot>, e: Edge, d: real)
    requires 0 <= e.0 < |s| && 0 <= e.1 < |s|
    requires var ou, ov := s[e.0].outer, s[e.1].outer;
      && 0 <= ou < |s| && 0 <= ov < |s|
      && s[ou].active && s[ou].outer == ou && s[ov].active && s[ov].outer == ov
    ensures var ou, ov := s[e.0].outer, s[e.1].outer;
      SlackChange(ViewOf(s, e), d) == if ou != ov then -(DualDelta(s[ou], ou, d) + DualDelta(s[ov], ov, d)) else 0.0
  {
  }

  /**
   * The dual update keeps the slacks feasible: with every slack and every
   * ODD outer blossom's dual not negative before, the step is not negative
   * and no slack is negative after.
   */
  lemma DualStepFeasible(s: seq<Slot>, sl: seq<real>, g: Graph, n: int)
    requires |sl| == |g.edges|
    requires forall i :: 0 <= i < |sl| ==> sl[i] >= 0.0
    requires forall i :: 0 <= i < |s| && OddOuters(s, n)[i] ==> s[i].dual >= 0.0
    ensures DualStep(s, sl, g, n) >= 0.0
    ensures forall i :: 0 <= i < |sl| ==> Shifted(sl, Views(s, g), DualStep(s, sl, g, n))[i] >= 0.0
  {
    var views := Views(s, g);
    var e3 := Least(DualsOf(s), OddOuters(s, n), |s|);
    LeastSlackFound(sl, views, true);
    LeastSlackFound(sl, views, false);
    LeastIsLeast(DualsOf(s), OddOuters(s, n), |s|);
    assert e3.Some? ==> e3.value >= 0.0;
    StepKeepsSlacksNonNegative(sl, views, Least(sl, Classes(views, true), |sl|), Least(sl, Classes(views, false), |sl|), e3);
    StepNotNegative(sl, views, Least(sl, Classes(views, true), |sl|), Least(sl, Classes(views, false), |sl|), e3);
  }

  /** The step never exceeds the dual of an ODD outer blossom, so none of those duals turns negative. */
  lemma OddDualsStayNonNegative(s: seq<Slot>, sl: seq<real>, g: Graph, n: int)
    requires |sl| == |g.edges|
    requires forall i :: 0 <= i < |s| && OddOuters(s, n)[i] ==> s[i].dual >= 0.0
    ensures forall i :: 0 <= i < |s| && OddOuters(s, n)[i] ==> DualShifted(s, DualStep(s, sl, g, n))[i].dual >= 0.0
  {
    LeastIsLeast(DualsOf(s), OddOuters(s, n), |s|);
  }

  /** A blossom slot with positive dual is blocked, and an active one without is not. */
  predicate BlockSettled(w: Slot) {
    (w.dual > 0.0 ==> w.blocked) && (w.dual <= 0.0 && w.active ==> !w.blocked)
  }

  /** Dismantling keeps duals, and keeps every settled slot settled. */
  lemma BlockSettledDismantles(s0: seq<Slot>, f0: seq<int>, s1: seq<Slot>, f1: seq<int>)
    requires Dismantles(s0, f0, s1, f1)
    ensures DualsOf(s1) == DualsOf(s0)
    ensures forall j :: 0 <= j < |s0| && BlockSettled(s0[j]) ==> BlockSettled(s1[j])
  {
    forall j | 0 <= j < |s0| && BlockSettled(s0[j])
      ensures BlockSettled(s1[j])
    {
      assert ActiveFlags(s1)[j] ==> ActiveFlags(s0)[j];
    }
  }

  /** The dismantling of a reset keeps duals, and keeps every settled slot settled. */
  lemma BlockSettledReset(s0: seq<Slot>, f0: seq<int>, s1: seq<Slot>, f1: seq<int>)
    requires Dismantles(Plain(Unhook(s0, |s0|)), f0, Plain(s1), f1)
    ensures DualsOf(s1) == DualsOf(s0)
    ensures forall j :: 0 <= j < |s0| && BlockSettled(s0[j]) ==> BlockSettled(s1[j])
  {
    var u0, u1 := Plain(Unhook(s0, |s0|)), Plain(s1);
    BlockSettledDismantles(u0, f0, u1, f1);
    assert DualsOf(u0) == DualsOf(s0);
    assert DualsOf(u1) == DualsOf(s1);
    forall j | 0 <= j < |s0| && BlockSettled(s0[j])
      ensures BlockSettled(s1[j])
    {
      assert BlockSettled(u0[j]);
    }
  }

  /** Expanding without touching blocked blossoms keeps duals, and keeps every settled slot settled. */
  lemma BlockSettledExpands(s0: seq<Slot>, f0: seq<int>, s1: seq<Slot>, f1: seq<int>)
    requires Expands(s0, f0, s1, f1, false)
    ensures DualsOf(s1) == DualsOf(s0)
    ensures forall j :: 0 <= j < |s0| && BlockSettled(s0[j]) ==> BlockSettled(s1[j])
  {
    forall j | 0 <= j < |s0| && BlockSettled(s0[j])
      ensures BlockSettled(s1[j])
    {
      assert ActiveFlags(s1)[j] ==> ActiveFlags(s0)[j];
    }
  }

  /** No member of `c` occurs twice. */
  predicate Distinct(c: seq<int>) {
    forall i, j :: 0 <= i < j < |c| ==> c[i] != c[j]
  }

  /**
   * In `s`, the members of circuit `c` after the first are mates in
   * consecutive pairs `c[2i+1]`, `c[2i+2]`, for the pairs that end before
   * position `k`.
   */
  ghost predicate PairedUpTo(s: seq<Slot>, c: seq<int>, k: int)
    requires forall j :: 0 <= j < |c| ==> 0 <= c[j] < |s|
  {
    forall i :: 0 <= i && 2 * i + 2 < k && 2 * i + 2 < |c| ==>
      s[c[2 * i + 1]].mate == c[2 * i + 2] && s[c[2 * i + 2]].mate == c[2 * i + 1]
  }

  /** With `k` odd, the pairs ending before `k` are all the pairs of a circuit of at most `k + 1` members. */
  lemma PairedToEnd(s: seq<Slot>, c: seq<int>, k: int)
    requires forall j :: 0 <= j < |c| ==> 0 <= c[j] < |s|
    requires k % 2 == 1 && |c| <= k + 1
    ensures PairedUpTo(s, c, k) ==> PairedUpTo(s, c, |c|)
  {
    if PairedUpTo(s, c, k) {
      forall i | 0 <= i && 2 * i + 2 < |c|
        ensures s[c[2 * i + 1]].mate == c[2 * i + 2] && s[c[2 * i + 2]].mate == c[2 * i + 1]
      {
        assert 2 * i + 2 < k;
      }
    }
  }

  /**
   * The re-matching of an expanded blossom whose circuit `c` starts at the
   * new tip: when `c` has no repeats, the tip is mated to `mu` and the other
   * children are mates in consecutive pairs.
   */
  ghost predicate CircuitPaired(s: seq<Slot>, c: seq<int>, mu: int)
    requires forall j :: 0 <= j < |c| ==> 0 <= c[j] < |s|
  {
    Distinct(c) ==> (|c| > 0 ==> s[c[0]].mate == mu) && PairedUpTo(s, c, |c|)
  }

  /** Matching the next pair `c[k]`, `c[k+1]` of a circuit without repeats. */
  lemma PairedStep(s: seq<Slot>, c: seq<int>, k: int)
    requires forall j :: 0 <= j < |c| ==> 0 <= c[j] < |s|
    requires Distinct(c) && 1 <= k && k + 1 < |c| && k % 2 == 1
    requires PairedUpTo(s, c, k)
    ensures var s1 := s[c[k] := s[c[k]].(mate := c[k + 1])];
      var s2 := s1[c[k + 1] := s1[c[k + 1]].(mate := c[k])];
      PairedUpTo(s2, c, k + 2) && s2[c[0]] == s[c[0]]
  {
    var s1 := s[c[k] := s[c[k]].(mate := c[k + 1])];
    var s2 := s1[c[k + 1] := s1[c[k + 1]].(mate := c[k])];
    forall i | 0 <= i && 2 * i + 2 < k + 2 && 2 * i + 2 < |c|
      ensures s2[c[2 * i + 1]].mate == c[2 * i + 2] && s2[c[2 * i + 2]].mate == c[2 * i + 1]
    {
      if 2 * i + 2 < k {
        assert c[2 * i + 1] != c[k] && c[2 * i + 1] != c[k + 1];
        assert c[2 * i + 2] != c[k] && c[2 * i + 2] != c[k + 1];
      } else {
        assert 2 * i + 1 == k;
      }
    }
  }

  /** Pairs of mates along a circuit depend on `mate` fields only. */
  lemma PairedKept(s0: seq<Slot>, s1: seq<Slot>, c: seq<int>, k: int)
    requires |s0| == |s1| && forall j :: 0 <= j < |c| ==> 0 <= c[j] < |s0|
    requires forall x :: 0 <= x < |s0| ==> s1[x].mate == s0[x].mate
    requires PairedUpTo(s0, c, k)
    ensures PairedUpTo(s1, c, k)
  {
  }

  /** The re-matching of a circuit depends on `mate` fields only. */
  lemma CircuitPairedKept(s0: seq<Slot>, s1: seq<Slot>, c: seq<int>, mu: int)
    requires |s0| == |s1| && forall j :: 0 <= j < |c| ==> 0 <= c[j] < |s0|
    requires forall x :: 0 <= x < |s0| ==> s1[x].mate == s0[x].mate
    ensures CircuitPaired(s0, c, mu) ==> CircuitPaired(s1, c, mu)
  {
    if CircuitPaired(s0, c, mu) && Distinct(c) {
      PairedKept(s0, s1, c, |c|);
    }
  }

  /** The slots whose outer blossom becomes child `c[i]` when its parent is undone. */
  function Claim(c: seq<int>, d: seq<seq<int>>, i: int): seq<int>
    requires 0 <= i < |c| && Indexes(c, d)
  {
    [c[i]] + d[c[i]]
  }

  /**
   * The children `c` of a blossom claim disjoint sets of slots: no slot is
   * named by two children, as a child or as a vertex deep in one.
   */
  ghost predicate Separate(c: seq<int>, d: seq<seq<int>>)
    requires Indexes(c, d)
  {
    forall i, j, x :: 0 <= i < |c| && 0 <= j < |c| && i != j && x in Claim(c, d, i) ==> x !in Claim(c, d, j)
  }

  /** `s1` differs from `s0` at most in `outer` fields. */
  ghost predicate OutersOnly(s0: seq<Slot>, s1: seq<Slot>) {
    |s0| == |s1| && forall x :: 0 <= x < |s0| ==> s1[x] == s0[x].(outer := s1[x].outer)
  }

  /** In `s`, each of the first `k` children of `c` is the outer blossom of every slot it claims. */
  ghost predicate ClaimedUpTo(s: seq<Slot>, c: seq<int>, d: seq<seq<int>>, k: int)
    requires Indexes(c, d) && k <= |c|
  {
    forall i, x :: 0 <= i < k && x in Claim(c, d, i) && 0 <= x < |s| ==> s[x].outer == c[i]
  }

  /** Re-pointing what child `c[k]` claims keeps the earlier children's claims, when claims are disjoint. */
  lemma ClaimStep(s0: seq<Slot>, s1: seq<Slot>, c: seq<int>, d: seq<seq<int>>, k: int)
    requires Indexes(c, d) && 0 <= k < |c| && Separate(c, d)
    requires ClaimedUpTo(s0, c, d, k) && OuterSet(s0, s1, Claim(c, d, k), c[k])
    ensures ClaimedUpTo(s1, c, d, k + 1)
  {
  }

  /** Claims depend on `outer` fields only. */
  lemma ClaimedKept(s0: seq<Slot>, s1: seq<Slot>, c: seq<int>, d: seq<seq<int>>, k: int)
    requires Indexes(c, d) && k <= |c| && |s0| == |s1|
    requires forall x :: 0 <= x < |s0| ==> s1[x].outer == s0[x].outer
    requires ClaimedUpTo(s0, c, d, k)
    ensures ClaimedUpTo(s1, c, d, k)
  {
  }

  /**
   * Going from slots `s0` and pool `f0` to `s1` and `f1` only expands
   * blossoms: the fields outside `ExpandOnly` are kept, the pool follows the
   * activity flags, and a blocked slot is deactivated only when `expandBlocked`.
   */
  ghost predicate Expands(s0: seq<Slot>, f0: seq<int>, s1: seq<Slot>, f1: seq<int>, expandBlocked: bool) {
    && |s0| == |s1|
    && (forall x :: 0 <= x < |s0| ==>
          && ExpandOnly(s0[x], s1[x])
          && (s0[x].active && !s1[x].active && s0[x].blocked ==> expandBlocked))
    && Tracks(ActiveFlags(s0), f0, ActiveFlags(s1), f1)
  }

  lemma ExpandsRefl(s: seq<Slot>, f: seq<int>, expandBlocked: bool)
    ensures Expands(s, f, s, f, expandBlocked)
  {
    TracksRefl(ActiveFlags(s), f);
  }

  lemma ExpandsTrans(s0: seq<Slot>, f0: seq<int>, s1: seq<Slot>, f1: seq<int>, s2: seq<Slot>, f2: seq<int>, expandBlocked: bool)
    requires Expands(s0, f0, s1, f1, expandBlocked) && Expands(s1, f1, s2, f2, expandBlocked)
    ensures Expands(s0, f0, s2, f2, expandBlocked)
  {
    TracksTrans(ActiveFlags(s0), f0, ActiveFlags(s1), f1, ActiveFlags(s2), f2);
  }

  /** Writing `mate` and `outer` fields, and reordering `shallow` lists, expands nothing else. */
  lemma ExpandsRewire(s0: seq<Slot>, f: seq<int>, s1: seq<Slot>, expandBlocked: bool)
    requires |s0| == |s1|
    requires forall x :: 0 <= x < |s0| ==>
      ExpandOnly(s0[x], s1[x]) && s1[x].active == s0[x].active
    ensures Expands(s0, f, s1, f, expandBlocked)
  {
    assert ActiveFlags(s0) == ActiveFlags(s1);
    TracksRefl(ActiveFlags(s0), f);
  }

  /** Writing `mate` fields expands nothing else. */
  lemma ExpandsByMates(s0: seq<Slot>, f: seq<int>, s1: seq<Slot>, c: seq<int>, expandBlocked: bool)
    requires MatesOnly(s0, s1, c)
    ensures Expands(s0, f, s1, f, expandBlocked)
  {
    ExpandsRewire(s0, f, s1, expandBlocked);
  }

  /** Writing `outer` fields expands nothing else. */
  lemma ExpandsByOuters(s0: seq<Slot>, f: seq<int>, s1: seq<Slot>, expandBlocked: bool)
    requires OutersOnly(s0, s1)
    ensures Expands(s0, f, s1, f, expandBlocked)
  {
    ExpandsRewire(s0, f, s1, expandBlocked);
  }

  /** Turning the circuit of one slot expands nothing else. */
  lemma ExpandsByRotation(s: seq<Slot>, f: seq<int>, u: int, k: nat, expandBlocked: bool)
    requires 0 <= u < |s| && k <= |s[u].shallow|
    ensures Expands(s, f, s[u := s[u].(shallow := Rotate(s[u].shallow, k))], f, expandBlocked)
  {
    RotatePermutes(s[u].shallow, k);
    ExpandsRewire(s, f, s[u := s[u].(shallow := Rotate(s[u].shallow, k))], expandBlocked);
  }

  /** Deactivating slot `u` and pushing it to the pool, when that is allowed. */
  lemma ExpandsRelease(s: seq<Slot>, f: seq<int>, u: int, expandBlocked: bool)
    requires 0 <= u < |s| && (s[u].blocked ==> expandBlocked)
    ensures Expands(s, f, s[u := s[u].(active := false)], f + [u], expandBlocked)
  {
    TracksRelease(ActiveFlags(s), f, u);
    assert ActiveFlags(s[u := s[u].(active := false)]) == ActiveFlags(s)[u := false];
  }

  /** Expansion only pushes onto the pool. */
  lemma PoolKept(s0: seq<Slot>, f0: seq<int>, s1: seq<Slot>, f1: seq<int>, expandBlocked: bool)
    requires Expands(s0, f0, s1, f1, expandBlocked)
    ensures Extends(f0, f1)
  {
  }

  /** Expansion never reactivates a slot. */
  lemma InactiveKept(s0: seq<Slot>, f0: seq<int>, s1: seq<Slot>, f1: seq<int>, expandBlocked: bool)
    requires Expands(s0, f0, s1, f1, expandBlocked)
    ensures forall x :: 0 <= x < |s0| && !s0[x].active ==> !s1[x].active
  {
    var a0, a1 := ActiveFlags(s0), ActiveFlags(s1);
    assert forall x :: 0 <= x < |a1| && a1[x] ==> a0[x];
  }

  /**
   * Slot `w`, numbered `x`, is dissolved when `Expand` reaches it: a matched
   * blossom slot that is unblocked, or blocked while blocked blossoms are expanded.
   */
  predicate Dissolvable(w: Slot, x: int, n: int, expandBlocked: bool) {
    n <= x && w.mate != -1 && (expandBlocked || !w.blocked)
  }

  /**
   * What one `Expand(x, expandBlocked)` does, from slots `s0` and pool `f0`
   * to `s1` and `f1`: an expansion step; nothing changes when `x` has no
   * mate; otherwise some least usable pair `(p, q)` between the deep vertices
   * of `x` and of its mate's outer blossom is chosen, a dissolvable `x` ends
   * inactive, and any other `x` is only re-paired with that blossom through
   * `(p, q)`.
   */
  ghost predicate ExpandStep(g: Graph, sl: seq<real>, n: int, s0: seq<Slot>, f0: seq<int>, s1: seq<Slot>, f1: seq<int>, x: int, expandBlocked: bool) {
    && 0 <= x < |s0|
    && Expands(s0, f0, s1, f1, expandBlocked)
    && (s0[x].mate == -1 ==> s1 == s0 && f1 == f0)
    && (s0[x].mate != -1 ==>
          && 0 <= s0[x].mate < |s0| && 0 <= s0[s0[x].mate].outer < |s0|
          && (Dissolvable(s0[x], x, n, expandBlocked) ==> !s1[x].active)
          && var v := s0[s0[x].mate].outer;
             exists p, q :: IsMinPair(g, sl, s0[x].deep, s0[v].deep, p, q) &&
               (!Dissolvable(s0[x], x, n, expandBlocked) ==> s1 == SetMates(s0, x, v, p, q) && f1 == f0))
  }

  /** Re-pairing two slots already mated to each other changes nothing. */
  lemma MatesKept(s: seq<Slot>, x: int, y: int)
    requires 0 <= x < |s| && 0 <= y < |s| && s[x].mate == y && s[y].mate == x
    ensures SetMates(s, x, y, x, y) == s
  {
    var r := SetMates(s, x, y, x, y);
    forall i | 0 <= i < |s|
      ensures r[i] == s[i]
    {
    }
  }

  /** `Expand`'s own contract, with the pair it returned, makes an `ExpandStep`. */
  lemma ExpandStepOf(g: Graph, sl: seq<real>, n: int, s0: seq<Slot>, f0: seq<int>, s1: seq<Slot>, f1: seq<int>, x: int, expandBlocked: bool, p: int, q: int)
    requires 0 <= x < |s0| && Expands(s0, f0, s1, f1, expandBlocked)
    requires s0[x].mate == -1 ==> s1 == s0 && f1 == f0
    requires s0[x].mate != -1 ==> 0 <= s0[x].mate < |s0| && 0 <= s0[s0[x].mate].outer < |s0|
    requires s0[x].mate != -1 ==> IsMinPair(g, sl, s0[x].deep, s0[s0[s0[x].mate].outer].deep, p, q)
    requires s0[x].mate != -1 && !Dissolvable(s0[x], x, n, expandBlocked) ==>
      s1 == SetMates(s0, x, s0[s0[x].mate].outer, p, q) && f1 == f0
    requires Dissolvable(s0[x], x, n, expandBlocked) ==> !s1[x].active
    ensures ExpandStep(g, sl, n, s0, f0, s1, f1, x, expandBlocked)
  {
  }

  /**
   * `states` and `pools` trace the first `k` children of `c` expanded in
   * turn: step `j` takes `states[j]`, `pools[j]` to `states[j + 1]`,
   * `pools[j + 1]` as `ExpandStep` says for child `c[j]`; all of one size.
   */
  ghost predicate ChildTurns(g: Graph, sl: seq<real>, n: int, c: seq<int>, states: seq<seq<Slot>>, pools: seq<seq<int>>, k: int, expandBlocked: bool) {
    && 0 <= k <= |c| && |states| == k + 1 && |pools| == k + 1
    && (forall j :: 0 <= j <= k ==> |states[j]| == |states[0]|)
    && (forall j :: 0 <= j < k ==> 0 <= c[j] < |states[0]|)
    && forall j :: 0 <= j < k ==> ExpandStep(g, sl, n, states[j], pools[j], states[j + 1], pools[j + 1], c[j], expandBlocked)
  }

  lemma ChildTurnsNext(g: Graph, sl: seq<real>, n: int, c: seq<int>, states: seq<seq<Slot>>, pools: seq<seq<int>>, k: int, expandBlocked: bool, s: seq<Slot>, f: seq<int>)
    requires ChildTurns(g, sl, n, c, states, pools, k, expandBlocked) && k < |c|
    requires ExpandStep(g, sl, n, states[k], pools[k], s, f, c[k], expandBlocked) && |s| == |states[0]|
    ensures ChildTurns(g, sl, n, c, states + [s], pools + [f], k + 1, expandBlocked)
  {
    var states', pools' := states + [s], pools + [f];
    forall j | 0 <= j < k + 1
      ensures ExpandStep(g, sl, n, states'[j], pools'[j], states'[j + 1], pools'[j + 1], c[j], expandBlocked)
    {
      if j < k {
        assert states'[j] == states[j] && states'[j + 1] == states[j + 1];
        assert pools'[j] == pools[j] && pools'[j + 1] == pools[j + 1];
      }
    }
  }

  /**
   * The expansion of the first `k` children of `c`, from slots `s0` and pool
   * `f0`, traced by `states` and `pools`: an expansion step in all, and every
   * child that was dissolvable at its turn is inactive at the end of the trace.
   */
  ghost predicate ChildrenSoFar(g: Graph, sl: seq<real>, n: int, c: seq<int>, s0: seq<Slot>, f0: seq<int>, states: seq<seq<Slot>>, pools: seq<seq<int>>, k: int, expandBlocked: bool) {
    && ChildTurns(g, sl, n, c, states, pools, k, expandBlocked)
    && states[0] == s0 && pools[0] == f0
    && Expands(s0, f0, states[k], pools[k], expandBlocked)
    && forall j :: 0 <= j < k && Dissolvable(states[j][c[j]], c[j], n, expandBlocked) ==> !states[k][c[j]].active
  }

  lemma ChildrenSoFarNext(g: Graph, sl: seq<real>, n: int, c: seq<int>, s0: seq<Slot>, f0: seq<int>, states: seq<seq<Slot>>, pools: seq<seq<int>>, k: int, expandBlocked: bool, s: seq<Slot>, f: seq<int>)
    requires ChildrenSoFar(g, sl, n, c, s0, f0, states, pools, k, expandBlocked) && k < |c|
    requires ExpandStep(g, sl, n, states[k], pools[k], s, f, c[k], expandBlocked) && |s| == |states[0]|
    ensures ChildrenSoFar(g, sl, n, c, s0, f0, states + [s], pools + [f], k + 1, expandBlocked)
  {
    ChildTurnsNext(g, sl, n, c, states, pools, k, expandBlocked, s, f);
    InactiveKept(states[k], pools[k], s, f, expandBlocked);
    ExpandsTrans(s0, f0, states[k], pools[k], s, f, expandBlocked);
    var states' := states + [s];
    assert forall j :: 0 <= j < k ==> states'[j] == states[j];
  }

  /**
   * Step `x` of the scan over all slots: an active, matched slot that is its
   * own outer blossom is expanded with blocked blossoms included; any other
   * slot is passed over unchanged.
   */
  ghost predicate MatchedStep(g: Graph, sl: seq<real>, n: int, s0: seq<Slot>, f0: seq<int>, s1: seq<Slot>, f1: seq<int>, x: int) {
    if 0 <= x < |s0| && s0[x].active && s0[x].mate != -1 && s0[x].outer == x then
      ExpandStep(g, sl, n, s0, f0, s1, f1, x, true)
    else
      s1 == s0 && f1 == f0
  }

  /** `states` and `pools` trace the first `k` steps of the scan, all of one size. */
  ghost predicate MatchedTurns(g: Graph, sl: seq<real>, n: int, states: seq<seq<Slot>>, pools: seq<seq<int>>, k: int) {
    && 0 <= k && |states| == k + 1 && |pools| == k + 1
    && (forall j :: 0 <= j <= k ==> |states[j]| == |states[0]|)
    && forall j :: 0 <= j < k ==> MatchedStep(g, sl, n, states[j], pools[j], states[j + 1], pools[j + 1], j)
  }

  /**
   * The first `k` steps of the scan, from slots `s0` and pool `f0`, traced by
   * `states` and `pools`: an expansion step in all, and every blossom slot
   * that was active, matched and its own outer blossom at its step is
   * inactive at the end of the trace.
   */
  ghost predicate MatchedSoFar(g: Graph, sl: seq<real>, n: int, s0: seq<Slot>, f0: seq<int>, states: seq<seq<Slot>>, pools: seq<seq<int>>, k: int) {
    && MatchedTurns(g, sl, n, states, pools, k)
    && states[0] == s0 && pools[0] == f0 && k <= |s0|
    && Expands(s0, f0, states[k], pools[k], true)
    && forall j :: 0 <= j && n <= j < k && states[j][j].active && states[j][j].mate != -1 && states[j][j].outer == j ==>
         !states[k][j].active
  }

  lemma MatchedSoFarNext(g: Graph, sl: seq<real>, n: int, s0: seq<Slot>, f0: seq<int>, states: seq<seq<Slot>>, pools: seq<seq<int>>, k: int, s: seq<Slot>, f: seq<int>)
    requires MatchedSoFar(g, sl, n, s0, f0, states, pools, k) && k < |s0| && |s| == |s0|
    requires MatchedStep(g, sl, n, states[k], pools[k], s, f, k)
    ensures MatchedSoFar(g, sl, n, s0, f0, states + [s], pools + [f], k + 1)
  {
    MatchedTurnsNext(g, sl, n, states, pools, k, s, f);
    if states[k][k].active && states[k][k].mate != -1 && states[k][k].outer == k {
      InactiveKept(states[k], pools[k], s, f, true);
      ExpandsTrans(s0, f0, states[k], pools[k], s, f, true);
    }
    var states' := states + [s];
    assert forall j :: 0 <= j < k ==> states'[j] == states[j];
  }

  lemma MatchedTurnsNext(g: Graph, sl: seq<real>, n: int, states: seq<seq<Slot>>, pools: seq<seq<int>>, k: int, s: seq<Slot>, f: seq<int>)
    requires MatchedTurns(g, sl, n, states, pools, k) && |s| == |states[0]|
    requires MatchedStep(g, sl, n, states[k], pools[k], s, f, k)
    ensures MatchedTurns(g, sl, n, states + [s], pools + [f], k + 1)
  {
    var states', pools' := states + [s], pools + [f];
    forall j | 0 <= j < k + 1
      ensures MatchedStep(g, sl, n, states'[j], pools'[j], states'[j + 1], pools'[j + 1], j)
    {
      if j < k {
        assert states'[j] == states[j] && states'[j + 1] == states[j + 1];
        assert pools'[j] == pools[j] && pools'[j + 1] == pools[j + 1];
      }
    }
  }

  /** `s` with the forest links of its first `i` slots cut: no parent, each its own root. */
  function Unhook(s: seq<Slot>, i: int): (r: seq<Slot>)
    ensures |r| == |s|
    ensures forall j :: 0 <= j < |s| ==> r[j] == if j < i then s[j].(forest := -1, root := j) else s[j]
  {
    seq(|s|, j requires 0 <= j < |s| => if j < i then s[j].(forest := -1, root := j) else s[j])
  }

  /** Cutting the forest link of one more slot commutes with dismantling. */
  lemma DismantlesUnhook(s0: seq<Slot>, f0: seq<int>, s1: seq<Slot>, f1: seq<int>, i: int)
    requires 0 <= i < |s0| && Dismantles(Unhook(s0, i), f0, s1, f1)
    ensures Dismantles(Unhook(s0, i + 1), f0, s1[i := s1[i].(forest := -1, root := i)], f1)
  {
    var s2 := s1[i := s1[i].(forest := -1, root := i)];
    assert ActiveFlags(Unhook(s0, i + 1)) == ActiveFlags(Unhook(s0, i));
    assert ActiveFlags(s2) == ActiveFlags(s1);
  }

  /** The first `i` slots name slots as their outer blossoms. */
  predicate VertexOuters(s: seq<Slot>, i: int) {
    0 <= i <= |s| && forall j :: 0 <= j < i ==> 0 <= s[j].outer < |s|
  }

  /** The outer blossom of each of the first `i` slots. */
  function OuterOf(s: seq<Slot>, i: int): (r: seq<int>)
    requires 0 <= i <= |s|
    ensures |r| == i && forall j :: 0 <= j < i ==> r[j] == s[j].outer
  {
    seq(i, j requires 0 <= j < i => s[j].outer)
  }

  /** The `mate` fields of a sequence of slots. */
  function MatesOf(s: seq<Slot>): (r: seq<int>)
    ensures |r| == |s| && forall i :: 0 <= i < |s| ==> r[i] == s[i].mate
  {
    seq(|s|, i requires 0 <= i < |s| => s[i].mate)
  }

  /** For each of the first `i` slots, whether its outer blossom is unmatched. */
  function UnmatchedOf(s: seq<Slot>, i: int): (r: seq<bool>)
    requires VertexOuters(s, i)
    ensures |r| == i && forall j :: 0 <= j < i ==> r[j] == (s[s[j].outer].mate == -1)
  {
    seq(i, j requires 0 <= j < i => s[s[j].outer].mate == -1)
  }

  /**
   * The vertices among the first `i` that a reset queues as forest roots, in
   * ascending order: the first vertex of each unmatched outer blossom, where
   * `o[j]` is the outer blossom of vertex `j` and `u[j]` says it is unmatched.
   */
  function Firsts(o: seq<int>, u: seq<bool>, i: int): (r: seq<int>)
    requires 0 <= i <= |o| && |u| == |o|
    ensures forall k :: 0 <= k < |r| ==> 0 <= r[k] < i
  {
    if i == 0 then []
    else Firsts(o, u, i - 1) + (if u[i - 1] && o[i - 1] !in o[..i - 1] then [i - 1] else [])
  }

  lemma FirstsNext(o: seq<int>, u: seq<bool>, i: int)
    requires 0 <= i < |o| && |u| == |o|
    ensures Firsts(o, u, i + 1) == Firsts(o, u, i) + (if u[i] && o[i] !in o[..i] then [i] else [])
  {
  }

  /** The queue of roots holds ascending vertices in unmatched outer blossoms. */
  lemma {:induction false} FirstsAscending(o: seq<int>, u: seq<bool>, i: int)
    requires 0 <= i <= |o| && |u| == |o|
    ensures var r := Firsts(o, u, i);
      && (forall k :: 0 <= k < |r| ==> u[r[k]] && o[r[k]] !in o[..r[k]])
      && (forall a, b :: 0 <= a < b < |r| ==> r[a] < r[b])
  {
    if i > 0 {
      FirstsAscending(o, u, i - 1);
      FirstsNext(o, u, i - 1);
    }
  }

  /** No two entries of the queue of roots share an outer blossom. */
  lemma {:induction false} FirstsDistinct(o: seq<int>, u: seq<bool>, i: int)
    requires 0 <= i <= |o| && |u| == |o|
    ensures var r := Firsts(o, u, i);
      forall a, b :: 0 <= a < b < |r| ==> o[r[a]] != o[r[b]]
  {
    if i > 0 {
      FirstsDistinct(o, u, i - 1);
      FirstsAscending(o, u, i);
      var r0 := Firsts(o, u, i - 1);
      var r := Firsts(o, u, i);
      assert r[..|r0|] == r0;
      forall a, b | 0 <= a < b < |r|
        ensures o[r[a]] != o[r[b]]
      {
        if b == |r0| {
          assert o[r[a]] in o[..r[b]];
        }
      }
    }
  }

  /** Some entry of the queue `r` is a vertex whose outer blossom (`o`) is `b`. */
  ghost predicate Covers(o: seq<int>, r: seq<int>, b: int) {
    exists k :: 0 <= k < |r| && 0 <= r[k] < |o| && o[r[k]] == b
  }

  /**
   * The queue of roots covers every unmatched outer blossom: every vertex
   * in one (when all vertices of a blossom agree on whether it is
   * unmatched) shares it with an entry.
   */
  lemma {:induction false} FirstsCover(o: seq<int>, u: seq<bool>, i: int)
    requires 0 <= i <= |o| && |u| == |o|
    requires forall a, b :: 0 <= a < |o| && 0 <= b < |o| && o[a] == o[b] ==> u[a] == u[b]
    ensures forall j :: 0 <= j < i && u[j] ==> Covers(o, Firsts(o, u, i), o[j])
  {
    if i > 0 {
      FirstsCover(o, u, i - 1);
      forall j | 0 <= j < i && u[j]
        ensures Covers(o, Firsts(o, u, i), o[j])
      {
        CoverFirst(o, u, i, j);
      }
    }
  }

  /** The step of `FirstsCover` for vertex `j`, through the first vertex sharing its blossom. */
  lemma CoverFirst(o: seq<int>, u: seq<bool>, i: int, j: int)
    requires 0 <= j < i <= |o| && |u| == |o| && u[j]
    requires forall a, b :: 0 <= a < |o| && 0 <= b < |o| && o[a] == o[b] ==> u[a] == u[b]
    requires forall l :: 0 <= l < i - 1 && u[l] ==> Covers(o, Firsts(o, u, i - 1), o[l])
    ensures Covers(o, Firsts(o, u, i), o[j])
  {
    var jj := j;
    if o[j] in o[..j] {
      jj :| 0 <= jj < j && o[jj] == o[j];
    }
    CoverAt(o, u, i, jj);
  }

  /**
   * Vertex `j` below `i`, unmatched, shares its outer blossom with an entry
   * of the queue of the first `i` vertices, given that every earlier
   * unmatched vertex does so with an entry of the queue of the first `i - 1`.
   */
  lemma CoverAt(o: seq<int>, u: seq<bool>, i: int, j: int)
    requires 0 <= j < i <= |o| && |u| == |o| && u[j]
    requires j == i - 1 ==> o[j] !in o[..j]
    requires forall l :: 0 <= l < i - 1 && u[l] ==> Covers(o, Firsts(o, u, i - 1), o[l])
    ensures Covers(o, Firsts(o, u, i), o[j])
  {
    var r0, r := Firsts(o, u, i - 1), Firsts(o, u, i);
    FirstsNext(o, u, i - 1);
    if j < i - 1 {
      var k :| 0 <= k < |r0| && 0 <= r0[k] < |o| && o[r0[k]] == o[j];
      assert r[k] == r0[k];
    } else {
      assert r[|r0|] == j;
    }
  }

  /** Outer blossom and mate of every slot agree: only labels and visit marks may differ. */
  ghost predicate SameButLabels(s0: seq<Slot>, s1: seq<Slot>) {
    |s0| == |s1| && forall x :: 0 <= x < |s0| ==> s1[x] == s0[x].(kind := s1[x].kind, visited := s1[x].visited)
  }

  /** The outer blossom of each of the first `i` vertices is EVEN when unmatched and UNLABELED otherwise. */
  ghost predicate KindsSet(s0: seq<Slot>, s: seq<Slot>, i: int)
    requires VertexOuters(s0, i) && |s| == |s0|
  {
    forall j :: 0 <= j < i ==> s[s0[j].outer].kind == if s0[s0[j].outer].mate == -1 then Even else Unlabeled
  }

  /** Slots that are the outer blossom of none of the first `i` vertices keep their label. */
  ghost predicate KindsKept(s0: seq<Slot>, s: seq<Slot>, i: int)
    requires 0 <= i <= |s0| && |s| == |s0|
  {
    forall x :: 0 <= x < |s| && (forall j :: 0 <= j < i ==> s0[j].outer != x) ==> s[x].kind == s0[x].kind
  }

  /** A slot is marked visited exactly when it is the unmatched outer blossom of one of the first `i` vertices. */
  ghost predicate VisitedExactly(s0: seq<Slot>, s: seq<Slot>, i: int)
    requires 0 <= i <= |s0| && |s| == |s0|
  {
    forall x :: 0 <= x < |s| ==> (s[x].visited <==> x in OuterOf(s0, i) && s0[x].mate == -1)
  }

  /**
   * A freshly reset forest over the `2n` slots `s` with queue `q`: every slot
   * is its own root without a parent, the outer blossom of each vertex is
   * labelled EVEN when unmatched and UNLABELED otherwise, exactly the
   * unmatched outer blossoms of vertices are visited, and the queue holds
   * their first vertices.
   */
  ghost predicate FreshForest(s: seq<Slot>, q: seq<int>, n: nat) {
    && |s| == 2 * n
    && (forall x :: 0 <= x < |s| ==> s[x].forest == -1 && s[x].root == x)
    && VertexOuters(s, |s|) && KindsSet(s, s, n)
    && VisitedExactly(s, s, n)
    && q == Firsts(OuterOf(s, |s|), UnmatchedOf(s, |s|), n)
  }

  /** What a reset promises about the final slots makes a `FreshForest`. */
  lemma FreshForestOf(s: seq<Slot>, q: seq<int>, n: nat)
    requires |s| == 2 * n
    requires forall x :: 0 <= x < 2 * n ==> s[x].forest == -1 && s[x].root == x
    requires VertexOuters(s, 2 * n) && KindsSet(s, s, n) && VisitedExactly(s, s, n)
    requires q == Firsts(OuterOf(s, 2 * n), UnmatchedOf(s, 2 * n), n)
    ensures FreshForest(s, q, n)
  {
  }

  /**
   * A dual update of slots `s0` and slacks `sl0` followed by a reset ends in
   * slots `s` with slacks `sl` and queue `q`: the slacks and duals moved by
   * the step of the update, every blossom slot's block flag agrees with its
   * dual, and the forest is freshly reset.
   */
  ghost predicate ShiftedReset(g: Graph, n: nat, s0: seq<Slot>, sl0: seq<real>, s: seq<Slot>, sl: seq<real>, q: seq<int>)
    requires |sl0| == |g.edges|
  {
    && sl == Shifted(sl0, Views(s0, g), DualStep(s0, sl0, g, n))
    && DualsOf(s) == DualsOf(DualShifted(s0, DualStep(s0, sl0, g, n)))
    && (forall j :: n <= j < 2 * n && j < |s| ==> BlockSettled(s[j]))
    && FreshForest(s, q, n)
  }

  /** The dual facts of an update, carried across the reset that follows it. */
  lemma ShiftKept(g: Graph, n: nat, s0: seq<Slot>, sl0: seq<real>, s1: seq<Slot>, f1: seq<int>, s: seq<Slot>, f: seq<int>, sl: seq<real>, q: seq<int>)
    requires |sl0| == |g.edges| && |s1| == 2 * n
    requires sl == Shifted(sl0, Views(s0, g), DualStep(s0, sl0, g, n))
    requires DualsOf(s1) == DualsOf(DualShifted(s0, DualStep(s0, sl0, g, n)))
    requires forall j :: n <= j < 2 * n ==> BlockSettled(s1[j])
    requires Dismantles(Plain(Unhook(s1, |s1|)), f1, Plain(s), f) && FreshForest(s, q, n)
    ensures ShiftedReset(g, n, s0, sl0, s, sl, q)
  {
    BlockSettledReset(s1, f1, s, f);
  }

  /**
   * Labelling the first `i` vertices of `s0` produced `s` and queue `q`:
   * labels and visit marks as the three predicates above say, nothing else
   * changed, and the queue is `Firsts`.
   */
  ghost predicate Labelled(s0: seq<Slot>, s: seq<Slot>, q: seq<int>, i: int) {
    && VertexOuters(s0, |s0|) && 0 <= i <= |s0| && SameButLabels(s0, s)
    && KindsSet(s0, s, i) && KindsKept(s0, s, i) && VisitedExactly(s0, s, i)
    && q == Firsts(OuterOf(s0, |s0|), UnmatchedOf(s0, |s0|), i)
  }

  /** Labelling vertex `i`: its outer blossom becomes EVEN and visited when unmatched, UNLABELED otherwise. */
  function Mark(s: seq<Slot>, i: int): (r: seq<Slot>)
    requires 0 <= i < |s| && 0 <= s[i].outer < |s|
  {
    var o := s[i].outer;
    if s[o].mate == -1 then s[o := s[o].(kind := Even, visited := true)]
    else s[o := s[o].(kind := Unlabeled)]
  }

  /** Vertex `i` joins the queue when its outer blossom is unmatched and not yet visited. */
  function Enqueue(s: seq<Slot>, q: seq<int>, i: int): seq<int>
    requires 0 <= i < |s| && 0 <= s[i].outer < |s|
  {
    var o := s[i].outer;
    if s[o].mate == -1 && !s[o].visited then q + [i] else q
  }

  lemma LabelledStart(s0: seq<Slot>)
    requires VertexOuters(s0, |s0|) && forall x :: 0 <= x < |s0| ==> !s0[x].visited
    ensures Labelled(s0, s0, [], 0)
  {
  }

  lemma KindsStep(s0: seq<Slot>, s: seq<Slot>, i: int)
    requires VertexOuters(s0, i + 1) && 0 <= i < |s0| && SameButLabels(s0, s)
    requires KindsSet(s0, s, i) && KindsKept(s0, s, i)
    ensures KindsSet(s0, Mark(s, i), i + 1) && KindsKept(s0, Mark(s, i), i + 1)
  {
    MarkOnly(s0, s, i);
    KindsSetStep(s0, s, i);
    KindsKeptStep(s0, s, i);
  }

  /** `Mark` gives the outer blossom of `i` its label and leaves every other slot alone. */
  lemma MarkOnly(s0: seq<Slot>, s: seq<Slot>, i: int)
    requires VertexOuters(s0, i + 1) && 0 <= i < |s0| && SameButLabels(s0, s)
    ensures var o, r := s0[i].outer, Mark(s, i);
      && |r| == |s| && r[o].kind == (if s0[o].mate == -1 then Even else Unlabeled)
      && forall x :: 0 <= x < |r| && x != o ==> r[x] == s[x]
  {
    var o := s0[i].outer;
    assert s[i].outer == o && s[o].mate == s0[o].mate;
  }

  lemma KindsSetStep(s0: seq<Slot>, s: seq<Slot>, i: int)
    requires VertexOuters(s0, i + 1) && 0 <= i < |s0| && SameButLabels(s0, s) && KindsSet(s0, s, i)
    requires var o, r := s0[i].outer, Mark(s, i);
      && |r| == |s| && r[o].kind == (if s0[o].mate == -1 then Even else Unlabeled)
      && forall x :: 0 <= x < |r| && x != o ==> r[x] == s[x]
    ensures KindsSet(s0, Mark(s, i), i + 1)
  {
    var o, r := s0[i].outer, Mark(s, i);
    forall j | 0 <= j < i + 1
      ensures r[s0[j].outer].kind == if s0[s0[j].outer].mate == -1 then Even else Unlabeled
    {
      if s0[j].outer != o {
        assert r[s0[j].outer] == s[s0[j].outer];
      }
    }
  }

  lemma KindsKeptStep(s0: seq<Slot>, s: seq<Slot>, i: int)
    requires VertexOuters(s0, i + 1) && 0 <= i < |s0| && SameButLabels(s0, s) && KindsKept(s0, s, i)
    requires var o, r := s0[i].outer, Mark(s, i);
      |r| == |s| && forall x :: 0 <= x < |r| && x != o ==> r[x] == s[x]
    ensures KindsKept(s0, Mark(s, i), i + 1)
  {
    var r := Mark(s, i);
    forall x | 0 <= x < |r| && (forall j :: 0 <= j < i + 1 ==> s0[j].outer != x)
      ensures r[x].kind == s0[x].kind
    {
      assert r[x] == s[x];
    }
  }

  lemma VisitedStep(s0: seq<Slot>, s: seq<Slot>, i: int)
    requires VertexOuters(s0, i + 1) && 0 <= i < |s0| && SameButLabels(s0, s)
    requires VisitedExactly(s0, s, i)
    ensures SameButLabels(s0, Mark(s, i)) && VisitedExactly(s0, Mark(s, i), i + 1)
  {
    assert OuterOf(s0, i + 1) == OuterOf(s0, i) + [s0[i].outer];
  }

  /** A blossom is still unvisited exactly when no earlier vertex lies in it. */
  lemma QueueStep(s0: seq<Slot>, s: seq<Slot>, i: int)
    requires VertexOuters(s0, |s0|) && 0 <= i < |s0| && SameButLabels(s0, s)
    requires VisitedExactly(s0, s, i)
    ensures var o, u := OuterOf(s0, |s0|), UnmatchedOf(s0, |s0|);
      Enqueue(s, Firsts(o, u, i), i) == Firsts(o, u, i + 1)
  {
    var o, u := OuterOf(s0, |s0|), UnmatchedOf(s0, |s0|);
    var x := s0[i].outer;
    assert s[i].outer == x && s[x].mate == s0[x].mate;
    assert o[..i] == OuterOf(s0, i);
    FirstsNext(o, u, i);
  }

  /** The slots with labels and visit marks erased. */
  function Plain(s: seq<Slot>): (r: seq<Slot>)
    ensures |r| == |s| && forall x :: 0 <= x < |s| ==> r[x] == s[x].(kind := Unlabeled, visited := false)
  {
    seq(|s|, x requires 0 <= x < |s| => s[x].(kind := Unlabeled, visited := false))
  }

  lemma DismantlesPlain(s0: seq<Slot>, f0: seq<int>, s1: seq<Slot>, f1: seq<int>, s2: seq<Slot>)
    requires Dismantles(s0, f0, s1, f1) && SameButLabels(s1, s2)
    ensures Dismantles(Plain(s0), f0, Plain(s2), f1)
    ensures forall x :: 0 <= x < |s0| ==> s2[x].forest == s0[x].forest && s2[x].root == s0[x].root
  {
    assert ActiveFlags(Plain(s0)) == ActiveFlags(s0);
    assert ActiveFlags(Plain(s2)) == ActiveFlags(s1);
  }

  /** What labelling established, restated about the labelled slots alone. */
  lemma LabelledSelf(s0: seq<Slot>, s: seq<Slot>, q: seq<int>, i: int)
    requires Labelled(s0, s, q, i)
    ensures VertexOuters(s, |s|) && KindsSet(s, s, i) && VisitedExactly(s, s, i)
    ensures q == Firsts(OuterOf(s, |s|), UnmatchedOf(s, |s|), i)
  {
    assert OuterOf(s, |s|) == OuterOf(s0, |s0|);
    assert OuterOf(s, i) == OuterOf(s0, i);
    assert UnmatchedOf(s, |s|) == UnmatchedOf(s0, |s0|);
  }

  /** Slots that are the outer blossom of none of the first `i` vertices of `s` carry their label in `s0`. */
  ghost predicate KindsFrom(s0: seq<Slot>, s: seq<Slot>, i: int)
    requires 0 <= i <= |s| && |s| == |s0|
  {
    forall x :: 0 <= x < |s| && (forall j :: 0 <= j < i ==> s[j].outer != x) ==> s[x].kind == s0[x].kind
  }

  /** The slots with every visit mark cleared. */
  function Unvisit(s: seq<Slot>): (r: seq<Slot>)
    ensures |r| == |s| && forall x :: 0 <= x < |s| ==> r[x] == s[x].(visited := false)
  {
    seq(|s|, x requires 0 <= x < |s| => s[x].(visited := false))
  }

  lemma ResetKinds(s0: seq<Slot>, f0: seq<int>, s1: seq<Slot>, f1: seq<int>, s3: seq<Slot>, q: seq<int>, i: int)
    requires |s0| == |s1| && Dismantles(Unhook(s0, |s0|), f0, s1, f1)
    requires Labelled(Unvisit(s1), s3, q, i)
    ensures KindsFrom(s0, s3, i)
    ensures forall x :: 0 <= x < |s3| ==> s3[x].forest == -1 && s3[x].root == x
  {
    forall x | 0 <= x < |s3|
      ensures s3[x].forest == -1 && s3[x].root == x
    {
      assert NestingOnly(Unhook(s0, |s0|)[x], s1[x]);
    }
  }

  /** The forest parent of every slot. */
  function ForestOf(s: seq<Slot>): (r: seq<int>)
    ensures |r| == |s| && forall y :: 0 <= y < |s| ==> r[y] == s[y].forest
  {
    seq(|s|, y requires 0 <= y < |s| => s[y].forest)
  }

  /**
   * Slot `y` after contracting child `x` into blossom `t` as far as the
   * vertices `e` nested in `x`: `x` and those vertices get `t` as outer
   * blossom, and the vertices are appended to `t`'s deep list.
   */
  function AbsorbSlot(s: seq<Slot>, t: int, x: int, e: seq<int>, y: int): Slot
    requires 0 <= t < |s| && 0 <= x < |s| && 0 <= y < |s|
  {
    (if y == t then s[t].(deep := s[t].deep + e) else s[y]).(outer := if y == x || y in e then t else s[y].outer)
  }

  /** All slots after contracting child `x` into `t` as far as the vertices `e`. */
  function AbsorbPart(s: seq<Slot>, t: int, x: int, e: seq<int>): (r: seq<Slot>)
    requires 0 <= t < |s| && 0 <= x < |s|
    ensures |r| == |s| && forall y :: 0 <= y < |s| ==> r[y] == AbsorbSlot(s, t, x, e, y)
  {
    seq(|s|, y requires 0 <= y < |s| => AbsorbSlot(s, t, x, e, y))
  }

  /** Absorbing the next nested vertex `e[j]` appends it to `t`'s deep list and gives it `t` as outer blossom. */
  lemma AbsorbPartStep(s: seq<Slot>, t: int, x: int, e: seq<int>, j: nat)
    requires 0 <= t < |s| && 0 <= x < |s| && j < |e| && 0 <= e[j] < |s| && e[j] != t
    ensures var a, z := AbsorbPart(s, t, x, e[..j]), e[j];
      var b := a[t := a[t].(deep := a[t].deep + [z])];
      b[z := b[z].(outer := t)] == AbsorbPart(s, t, x, e[..j + 1])
  {
    var a, z := AbsorbPart(s, t, x, e[..j]), e[j];
    var b := a[t := a[t].(deep := a[t].deep + [z])];
    var r, q := b[z := b[z].(outer := t)], AbsorbPart(s, t, x, e[..j + 1]);
    assert e[..j + 1] == e[..j] + [z];
    forall y | 0 <= y < |s|
      ensures r[y] == q[y]
    {
      assert (y in e[..j + 1]) == (y in e[..j] || y == z);
      assert s[t].deep + e[..j] + [z] == s[t].deep + e[..j + 1];
    }
  }

  /** Before any nested vertex is absorbed, only `x` has changed: its outer blossom is `t`. */
  lemma AbsorbPartStart(s: seq<Slot>, t: int, x: int)
    requires 0 <= t < |s| && 0 <= x < |s|
    ensures AbsorbPart(s, t, x, []) == s[x := s[x].(outer := t)]
  {
    var r := AbsorbPart(s, t, x, []);
    forall y | 0 <= y < |s|
      ensures r[y] == s[x := s[x].(outer := t)][y]
    {
      assert s[t].deep + [] == s[t].deep;
    }
  }

  /** All slots after contracting child `x` into blossom `t`, with the vertices nested in `x`. */
  function AbsorbOne(s: seq<Slot>, t: int, x: int): (r: seq<Slot>)
    requires 0 <= t < |s| && 0 <= x < |s|
    ensures |r| == |s| && forall y :: 0 <= y < |s| ==> r[y] == AbsorbSlot(s, t, x, s[x].deep, y)
  {
    seq(|s|, y requires 0 <= y < |s| => AbsorbSlot(s, t, x, s[x].deep, y))
  }

  /** Contracting the first `k` children of `c`, in order. */
  function AbsorbAll(s: seq<Slot>, t: int, c: seq<int>, k: nat): (r: seq<Slot>)
    requires 0 <= t < |s| && k <= |c| && forall j :: 0 <= j < |c| ==> 0 <= c[j] < |s|
    ensures |r| == |s|
  {
    if k == 0 then s else AbsorbOne(AbsorbAll(s, t, c, k - 1), t, c[k - 1])
  }

  /** Deep lists hold vertices other than `t`. */
  ghost predicate DeepAvoids(s: seq<Slot>, t: int) {
    forall y, j :: 0 <= y < |s| && 0 <= j < |s[y].deep| ==> 0 <= s[y].deep[j] < |s| && s[y].deep[j] != t
  }

  /**
   * When `t` is not a child, contracting the children of `c` into `t`
   * appends their deep lists to `t`'s, in order, and leaves every other deep
   * list alone.
   */
  lemma {:induction false} AbsorbAllDeep(s: seq<Slot>, t: int, c: seq<int>, k: nat)
    requires 0 <= t < |s| && k <= |c| && forall j :: 0 <= j < |c| ==> 0 <= c[j] < |s|
    requires t !in c
    ensures var r := AbsorbAll(s, t, c, k);
      && r[t].deep == s[t].deep + Flatten(c[..k], DeepLists(s))
      && (forall y :: 0 <= y < |s| && y != t ==> r[y].deep == s[y].deep)
  {
    if k > 0 {
      AbsorbAllDeep(s, t, c, k - 1);
      FlattenSnoc(c, DeepLists(s), k - 1);
    } else {
      assert c[..0] == [];
    }
  }

  /** Contraction changes outer blossoms, and the deep list of `t` only. */
  lemma {:induction false} AbsorbAllFrame(s: seq<Slot>, t: int, c: seq<int>, k: nat)
    requires 0 <= t < |s| && k <= |c| && forall j :: 0 <= j < |c| ==> 0 <= c[j] < |s|
    ensures var r := AbsorbAll(s, t, c, k);
      && (forall y :: 0 <= y < |s| && y != t ==> r[y] == s[y].(outer := r[y].outer))
      && r[t] == s[t].(outer := r[t].outer, deep := r[t].deep)
  {
    if k > 0 {
      AbsorbAllFrame(s, t, c, k - 1);
    }
  }

  /**
   * When `t` is not a child and no deep list holds `t`, contraction gives
   * `t` as outer blossom to exactly the children and the vertices nested in
   * them.
   */
  lemma AbsorbAllOuter(s: seq<Slot>, t: int, c: seq<int>, k: nat)
    requires 0 <= t < |s| && k <= |c| && forall j :: 0 <= j < |c| ==> 0 <= c[j] < |s|
    requires t !in c
    ensures var r, d := AbsorbAll(s, t, c, k), DeepLists(s);
      forall y :: 0 <= y < |s| ==>
        r[y].outer == if y in c[..k] || y in Flatten(c[..k], d) then t else s[y].outer
  {
    forall y | 0 <= y < |s|
      ensures AbsorbAll(s, t, c, k)[y].outer ==
        if y in c[..k] || y in Flatten(c[..k], DeepLists(s)) then t else s[y].outer
    {
      AbsorbOuterFor(s, t, c, k, y);
    }
  }

  /** `AbsorbAllOuter` for one slot `y`, by induction on the number of children contracted. */
  lemma {:induction false} AbsorbOuterFor(s: seq<Slot>, t: int, c: seq<int>, k: nat, y: int)
    requires 0 <= t < |s| && k <= |c| && forall j :: 0 <= j < |c| ==> 0 <= c[j] < |s|
    requires t !in c && 0 <= y < |s|
    ensures AbsorbAll(s, t, c, k)[y].outer ==
      if y in c[..k] || y in Flatten(c[..k], DeepLists(s)) then t else s[y].outer
  {
    if k > 0 {
      AbsorbOuterFor(s, t, c, k - 1, y);
      AbsorbAllDeep(s, t, c, k - 1);
      assert c[k - 1] in c;
      assert AbsorbAll(s, t, c, k - 1)[c[k - 1]].deep == s[c[k - 1]].deep;
      AbsorbOuterAt(s, t, c, k, y);
    } else {
      assert c[..0] == [];
    }
  }

  /** The step of `AbsorbAllOuter` for one slot `y`: contracting child `c[k-1]` as well. */
  lemma AbsorbOuterAt(s: seq<Slot>, t: int, c: seq<int>, k: nat, y: int)
    requires 0 <= t < |s| && 0 < k <= |c| && forall j :: 0 <= j < |c| ==> 0 <= c[j] < |s|
    requires 0 <= y < |s| && c[k - 1] != t
    requires var r0, d := AbsorbAll(s, t, c, k - 1), DeepLists(s);
      && r0[y].outer == (if y in c[..k - 1] || y in Flatten(c[..k - 1], d) then t else s[y].outer)
      && r0[c[k - 1]].deep == s[c[k - 1]].deep
    ensures AbsorbAll(s, t, c, k)[y].outer ==
      if y in c[..k] || y in Flatten(c[..k], DeepLists(s)) then t else s[y].outer
  {
    var d := DeepLists(s);
    var r0, x := AbsorbAll(s, t, c, k - 1), c[k - 1];
    assert c[..k] == c[..k - 1] + [x];
    FlattenSnoc(c, d, k - 1);
    assert AbsorbAll(s, t, c, k)[y] == AbsorbSlot(r0, t, x, r0[x].deep, y);
    assert (y in c[..k]) == (y in c[..k - 1] || y == x);
    assert (y in Flatten(c[..k], d)) == (y in Flatten(c[..k - 1], d) || y in d[x]);
  }


  /** Outside slot `t`, only outer blossoms change; in `t`, labels, dual, block and visit mark stay. */
  ghost predicate BlossomFrame(s0: seq<Slot>, s1: seq<Slot>, t: int) {
    && |s1| == |s0| && 0 <= t < |s0|
    && (forall y :: 0 <= y < |s0| && y != t ==> s1[y] == s0[y].(outer := s1[y].outer))
    && s1[t].blocked == s0[t].blocked && s1[t].dual == s0[t].dual && s1[t].visited == s0[t].visited
  }

  /** Contracting children into a cleared blossom `t` keeps every attribute but nesting. */
  lemma ContractFrame(s0: seq<Slot>, t: int, c: seq<int>, s2: seq<Slot>)
    requires 0 <= t < |s0| && forall j :: 0 <= j < |c| ==> 0 <= c[j] < |s0|
    requires s2 == AbsorbAll(s0[t := s0[t].(shallow := c, deep := [])], t, c, |c|)
    ensures |s2| == |s0|
    ensures forall y :: 0 <= y < |s0| && y != t ==> s2[y] == s0[y].(outer := s2[y].outer)
    ensures s2[t] == s0[t].(shallow := c, deep := s2[t].deep, outer := s2[t].outer)
  {
    var s1 := s0[t := s0[t].(shallow := c, deep := [])];
    AbsorbAllFrame(s1, t, c, |c|);
  }

  /**
   * Contracting the children `c` into a cleared blossom `t`, seen from the
   * slots before clearing: when `t` is not a child, `t`'s deep list is the
   * children's deep lists in order, and exactly the children and the
   * vertices nested in them get `t` as outer blossom.
   */
  lemma ContractMeaning(s0: seq<Slot>, t: int, c: seq<int>, s2: seq<Slot>)
    requires 0 <= t < |s0| && forall j :: 0 <= j < |c| ==> 0 <= c[j] < |s0|
    requires s2 == AbsorbAll(s0[t := s0[t].(shallow := c, deep := [])], t, c, |c|)
    requires t !in c && DeepAvoids(s0, t)
    ensures s2[t].deep == Flatten(c, DeepLists(s0))
    ensures forall y :: 0 <= y < |s0| ==>
      s2[y].outer == if y in c || y in Flatten(c, DeepLists(s0)) then t else s0[y].outer
  {
    var s1 := s0[t := s0[t].(shallow := c, deep := [])];
    assert c[..|c|] == c;
    assert DeepAvoids(s1, t);
    FlattenAgree(c, DeepLists(s1), DeepLists(s0));
    AbsorbAllDeep(s1, t, c, |c|);
    AbsorbAllOuter(s1, t, c, |c|);
  }

  /**
   * `s1` is `s0` after contracting children starting at `tip` into slot
   * `t`: `t` is an active EVEN outer blossom with the tip as its tip, the
   * tip's parent, root and mate, and children `c`.
   */
  ghost predicate Crowned(s0: seq<Slot>, s1: seq<Slot>, t: int, tip: int, c: seq<int>)
    requires 0 <= tip < |s0|
  {
    && BlossomFrame(s0, s1, t)
    && s1[t].tip == tip && s1[t].shallow == c
    && s1[t].active && s1[t].kind == Even && s1[t].outer == t
    && s1[t].forest == s0[tip].forest && s1[t].root == s0[tip].root && s1[t].mate == s0[tip].mate
  }

  /**
   * The deep list of `t` in `s1` is that of the children `c` in `s0`, in
   * order, and exactly the children and their vertices lie in `t`.
   */
  ghost predicate Nested(s0: seq<Slot>, s1: seq<Slot>, t: int, c: seq<int>)
    requires |s1| == |s0| && 0 <= t < |s0| && forall j :: 0 <= j < |c| ==> 0 <= c[j] < |s0|
  {
    && s1[t].deep == Flatten(c, DeepLists(s0))
    && forall y :: 0 <= y < |s0| && y != t ==>
         s1[y].outer == if y in c || y in s1[t].deep then t else s0[y].outer
  }

  /**
   * `s1` is `s0` after contracting the blossom closed by an edge between
   * vertices `u` and `v` into the free slot `t`: the children are the odd
   * circuit of the forest, tip first, the tip being the lowest blossom
   * common to the two walks to the roots; when `t` is not itself on the
   * circuit, they and their vertices now lie in `t`.
   */
  ghost predicate BlossomMade(s0: seq<Slot>, s1: seq<Slot>, t: int, u: int, v: int)
    requires Linked(OuterOf(s0, |s0|), ForestOf(s0)) && 0 <= u < |s0| && 0 <= v < |s0|
  {
    var o, f := OuterOf(s0, |s0|), ForestOf(s0);
    var tip, c := Tip(o, f, o[u], o[v], |s0|), Circuit(o, f, o[u], o[v], |s0|);
    && Crowned(s0, s1, t, tip, c)
    && (t !in c ==> Nested(s0, s1, t, c))
  }

  /** Slot `t` takes the place of `tip` in the forest as an active EVEN outer blossom. */
  function Crown(s: seq<Slot>, t: int, tip: int): (r: seq<Slot>)
    requires 0 <= t < |s| && 0 <= tip < |s|
  {
    s[t := s[t].(forest := s[tip].forest, kind := Even, root := s[tip].root, active := true, outer := t, mate := s[tip].mate)]
  }

  /** The slots after naming the tip of `t` and contracting the children `c` into it. */
  function Contraction(s: seq<Slot>, t: int, tip: int, c: seq<int>): (r: seq<Slot>)
    requires 0 <= t < |s| && forall j :: 0 <= j < |c| ==> 0 <= c[j] < |s|
  {
    AbsorbAll(s[t := s[t].(tip := tip, shallow := c, deep := [])], t, c, |c|)
  }

  /** Naming the tip of a blossom leaves the deep lists alone. */
  lemma DeepListsTip(s: seq<Slot>, t: int, tip: int)
    requires 0 <= t < |s|
    ensures DeepLists(s[t := s[t].(tip := tip)]) == DeepLists(s)
  {
  }

  /** Contracting and then crowning `t` leaves every other attribute alone. */
  lemma CrownedFrom(s0: seq<Slot>, t: int, tip: int, c: seq<int>)
    requires 0 <= t < |s0| && 0 <= tip < |s0| && forall j :: 0 <= j < |c| ==> 0 <= c[j] < |s0|
    ensures var s2 := Contraction(s0, t, tip, c); Crowned(s0, Crown(s2, t, tip), t, tip, c)
  {
    var s1 := s0[t := s0[t].(tip := tip)];
    assert s1[t := s1[t].(shallow := c, deep := [])] == s0[t := s0[t].(tip := tip, shallow := c, deep := [])];
    var s2 := Contraction(s0, t, tip, c);
    ContractFrame(s1, t, c, s2);
    assert s2[tip].forest == s0[tip].forest && s2[tip].root == s0[tip].root && s2[tip].mate == s0[tip].mate;
  }

  /** When no deep list holds `t` and `t` is not a child, contraction nests the children in `t`. */
  lemma NestedFrom(s0: seq<Slot>, t: int, tip: int, c: seq<int>)
    requires 0 <= t < |s0| && 0 <= tip < |s0| && forall j :: 0 <= j < |c| ==> 0 <= c[j] < |s0|
    requires DeepAvoids(s0, t) && t !in c
    ensures var s2 := Contraction(s0, t, tip, c); Nested(s0, Crown(s2, t, tip), t, c)
  {
    var s1 := s0[t := s0[t].(tip := tip)];
    assert s1[t := s1[t].(shallow := c, deep := [])] == s0[t := s0[t].(tip := tip, shallow := c, deep := [])];
    var s2 := Contraction(s0, t, tip, c);
    DeepListsTip(s0, t, tip);
    assert DeepAvoids(s1, t);
    ContractMeaning(s1, t, c, s2);
  }

  /** Contracting the circuit found by the forest walks and crowning `t` makes the blossom `BlossomMade` describes. */
  lemma BlossomMadeFrom(s0: seq<Slot>, t: int, u: int, v: int, tip: int, c: seq<int>, s1: seq<Slot>)
    requires Linked(OuterOf(s0, |s0|), ForestOf(s0)) && 0 <= u < |s0| && 0 <= v < |s0| && 0 <= t < |s0|
    requires DeepAvoids(s0, t)
    requires var o, f := OuterOf(s0, |s0|), ForestOf(s0);
      tip == Tip(o, f, o[u], o[v], |s0|) && c == Circuit(o, f, o[u], o[v], |s0|)
    requires s1 == Crown(Contraction(s0, t, tip, c), t, tip)
    ensures BlossomMade(s0, s1, t, u, v)
  {
    CrownedFrom(s0, t, tip, c);
    if t !in c {
      NestedFrom(s0, t, tip, c);
    }
  }

  class Matching {
    const G: Graph
    const n: nat
    const m: nat

    /** The per-slot attributes, `2n` of them. */
    const slots: array<Slot>
    /** Reduced cost of each edge; an edge with positive slack cannot be used. */
    const slack: array<real>

    /** The stack of free blossom slots. */
    var free: seq<int>
    /** The work queue of the forest growth. */
    var forestList: seq<int>
    var perfect: bool

    /** Sizes fixed at construction. */
    ghost predicate Shape() {
      && G.Valid() && n == G.n && m == |G.edges|
      && slots.Length == 2 * n && slack.Length == m
    }

    /** Every index stored in a slot points at a slot (or is -1 where the source uses -1). */
    ghost predicate InRange(s: Slot) {
      && 0 <= s.outer < 2 * n && 0 <= s.tip < 2 * n && 0 <= s.root < 2 * n
      && -1 <= s.forest < 2 * n && -1 <= s.mate < 2 * n
      && (forall k :: 0 <= k < |s.deep| ==> 0 <= s.deep[k] < n)
      && (forall k :: 0 <= k < |s.shallow| ==> 0 <= s.shallow[k] < 2 * n)
    }

    ghost predicate Valid()
      reads this, slots
    {
      && Shape()
      && (forall i :: 0 <= i < 2 * n ==> InRange(slots[i]))
      && (forall k :: 0 <= k < |free| ==> n <= free[k] < 2 * n)
      && (forall k :: 0 <= k < |forestList| ==> 0 <= forestList[k] < 2 * n)
    }

    /** Original vertex `i` is active, unblocked, holds exactly itself and has no children. */
    ghost predicate Original(s: Slot, i: int) {
      s.active && !s.blocked && s.deep == [i] && s.shallow == []
    }

    /** The state after `Clear`, kept by every operation since. */
    ghost predicate Ready()
      reads this, slots
    {
      Valid() && forall i :: 0 <= i < n ==> Original(slots[i], i)
    }

    /** The source's constructor: every vector sized `2n` (`m` for slacks) and zero-filled. */
    constructor (g: Graph)
      requires g.Valid()
      ensures Valid() && G == g
      ensures free == [] && forestList == [] && !perfect
      ensures forall i :: 0 <= i < 2 * n ==> slots[i] == Slot(0, [], [], 0, false, Unlabeled, 0, 0, false, 0.0, 0, false)
      ensures forall e :: 0 <= e < m ==> slack[e] == 0.0
    {
      G := g;
      n := g.n;
      m := |g.edges|;
      slots := new Slot[2 * g.n](_ => Slot(0, [], [], 0, false, Unlabeled, 0, 0, false, 0.0, 0, false));
      slack := new real[|g.edges|](_ => 0.0);
      free := [];
      forestList := [];
      perfect := false;
    }

    /** An edge whose slack is positive cannot be used. */
    predicate IsEdgeBlocked(u: int, v: int)
      reads slack
      requires Shape() && G.Adjacent(u, v)
      ensures IsEdgeBlocked(u, v) == !Usable(G, slack[..], u, v)
    {
      slack[G.EdgeIndex(u, v)] > 0.0
    }

    /** Adjacent in the graph through an edge that is not blocked. */
    predicate IsAdjacent(u: int, v: int)
      reads slack
      requires Shape()
      ensures IsAdjacent(u, v) == Usable(G, slack[..], u, v)
    {
      G.Adjacent(u, v) && !IsEdgeBlocked(u, v)
    }

    /***** The free pool *****/

    method GetFreeBlossomIndex() returns (i: int)
      requires Valid() && free != []
      modifies this`free
      ensures Valid()
      ensures i == old(free[|free| - 1]) && free == old(free[..|free| - 1])
      ensures n <= i < 2 * n
    {
      i := free[|free| - 1];
      free := free[..|free| - 1];
    }

    method AddFreeBlossomIndex(i: int)
      requires Valid() && n <= i < 2 * n
      modifies this`free
      ensures Valid()
      ensures free == old(free) + [i]
    {
      free := free + [i];
    }

    method ClearBlossomIndices()
      requires Valid()
      modifies this`free
      ensures Valid()
      ensures free == seq(n, k => n + k)
    {
      free := [];
      var i := n;
      while i < 2 * n
        invariant n <= i <= 2 * n
        invariant Valid()
        invariant free == seq(i - n, k => n + k)
      {
        AddFreeBlossomIndex(i);
        i := i + 1;
      }
    }

    /***** Reinitialisation *****/

    /**
     * Resets everything but `visited` and the queue: no blossoms, no
     * matching, zero duals and slacks, every original vertex active and
     * alone, every blossom slot in the pool.
     */
    method Clear()
      requires Valid()
      modifies this`free, slots, slack
      ensures Ready()
      ensures free == seq(n, k => n + k)
      ensures forall i :: 0 <= i < 2 * n ==> slots[i] == ClearedSlot(i, n, old(slots[i].visited))
      ensures forall e :: 0 <= e < m ==> slack[e] == 0.0
    {
      ClearBlossomIndices();
      for i := 0 to 2 * n
        invariant forall j :: 0 <= j < i ==> slots[j] == ClearedSlot(j, n, old(slots[j].visited))
        invariant forall j :: i <= j < 2 * n ==> slots[j] == old(slots[j])
        modifies slots
      {
        slots[i] := ClearedSlot(i, n, slots[i].visited);
      }
      for e := 0 to m
        invariant forall j :: 0 <= j < e ==> slack[j] == 0.0
        modifies slack
      {
        slack[e] := 0.0;
      }
    }
    /***** Dismantling blossoms *****/

    /** Makes `b` the outer blossom of every slot in `xs`; nothing else changes. */
    method SetOuter(xs: seq<int>, b: int)
      requires Ready() && 0 <= b < 2 * n
      requires forall k :: 0 <= k < |xs| ==> 0 <= xs[k] < 2 * n
      modifies slots
      ensures Ready()
      ensures OuterSet(old(slots[..]), slots[..], xs, b)
    {
      for k := 0 to |xs|
        invariant Ready()
        invariant OuterSet(old(slots[..]), slots[..], xs[..k], b)
      {
        slots[xs[k]] := slots[xs[k]].(outer := b);
        assert xs[..k + 1] == xs[..k] + [xs[k]];
      }
      assert xs[..|xs|] == xs;
    }

    /**
     * Destroys blossom `t` and, recursively, the blossoms nested in it: each
     * child becomes its own outer blossom (and that of the vertices deep in
     * it), and `t` is deactivated, unblocked, unmatched and pushed back to the
     * pool. Original vertices, and blocked blossoms whose dual is positive,
     * are left alone. `depth` bounds the nesting the recursion descends.
     */
    method DestroyBlossom(t: int, depth: nat)
      requires Ready() && 0 <= t < 2 * n
      modifies this`free, slots
      ensures Ready()
      ensures Dismantles(old(slots[..]), old(free), slots[..], free)
      ensures old(t < n || (slots[t].blocked && slots[t].dual > 0.0)) ==>
        free == old(free) && slots[..] == old(slots[..])
      ensures old(!(t < n || (slots[t].blocked && slots[t].dual > 0.0))) ==>
        && !slots[t].active && !slots[t].blocked && slots[t].mate == -1
        && free != [] && free[|free| - 1] == t
      decreases depth, 1
    {
      if t < n || (slots[t].blocked && slots[t].dual > 0.0) {
        DismantlesRefl(slots[..], free);
        return;
      }
      ghost var s1, f1 := slots[..], free;
      UnnestChildren(slots[t].shallow, depth);
      ReleaseSlot(t);
      DismantlesTrans(old(slots[..]), old(free), s1, f1, slots[..], free);
    }

    /**
     * The loop of `DestroyBlossom` over the children `c` of a blossom: each
     * child becomes the outer blossom of itself and of the vertices deep in
     * it, then is destroyed in turn while `depth` allows.
     */
    method UnnestChildren(c: seq<int>, depth: nat)
      requires Ready() && forall k :: 0 <= k < |c| ==> 0 <= c[k] < 2 * n
      modifies this`free, slots
      ensures Ready()
      ensures Dismantles(old(slots[..]), old(free), slots[..], free)
      decreases depth, 0
    {
      DismantlesRefl(slots[..], free);
      for k := 0 to |c|
        invariant Ready()
        invariant Dismantles(old(slots[..]), old(free), slots[..], free)
      {
        var s := c[k];
        ghost var s0 := slots[..];
        SetOuter([s] + slots[s].deep, s);
        DismantlesOuter(s0, free, slots[..], [s] + s0[s].deep, s);
        DismantlesTrans(old(slots[..]), old(free), s0, free, slots[..], free);
        if depth > 0 {
          ghost var s1, f1 := slots[..], free;
          DestroyBlossom(s, depth - 1);
          DismantlesTrans(old(slots[..]), old(free), s1, f1, slots[..], free);
        }
      }
    }

    /** The end of `DestroyBlossom`: `t` is deactivated, unblocked, unmatched and pushed to the pool. */
    method ReleaseSlot(t: int)
      requires Ready() && n <= t < 2 * n && !(slots[t].blocked && slots[t].dual > 0.0)
      modifies this`free, slots
      ensures Ready()
      ensures Dismantles(old(slots[..]), old(free), slots[..], free)
      ensures slots[..] == old(slots[..])[t := old(slots[t]).(active := false, blocked := false, mate := -1)]
      ensures free == old(free) + [t]
    {
      slots[t] := slots[t].(active := false, blocked := false, mate := -1);
      AddFreeBlossomIndex(t);
      DismantlesRelease(old(slots[..]), old(free), t);
    }

    /***** Expansion of blossoms *****/

    /**
     * The pair `(p, q)` with `p` in `du`, `q` in `dv`, joined by an edge that
     * is not blocked, whose edge index is least; `(-1, -1)` when there is none.
     */
    method FindMinPair(du: seq<int>, dv: seq<int>) returns (p: int, q: int)
      requires Shape()
      ensures IsMinPair(G, slack[..], du, dv, p, q)
    {
      var index := m;
      p, q := -1, -1;
      for i := 0 to |du|
        invariant index <= m
        invariant index == m ==> p == -1 && q == -1
        invariant index < m ==> p in du[..i] && q in dv && Usable(G, slack[..], p, q) && index == G.EdgeIndex(p, q)
        invariant forall x, y :: x in du[..i] && y in dv && Usable(G, slack[..], x, y) ==> index <= G.EdgeIndex(x, y)
      {
        var p', q', index' := ScanRow(du[i], dv, p, q, index);
        p, q, index := p', q', index';
        assert du[..i + 1] == du[..i] + [du[i]];
      }
      assert du[..|du|] == du;
    }

    /** One row of `FindMinPair`: improves `(p0, q0)` of edge index `index0` by the pairs `(x, y)`, `y` in `ys`. */
    method ScanRow(x: int, ys: seq<int>, p0: int, q0: int, index0: int) returns (p: int, q: int, index: int)
      requires Shape()
      ensures index <= index0
      ensures index == index0 ==> p == p0 && q == q0
      ensures index < index0 ==> p == x && q in ys && Usable(G, slack[..], x, q) && index == G.EdgeIndex(x, q)
      ensures forall y :: y in ys && Usable(G, slack[..], x, y) ==> index <= G.EdgeIndex(x, y)
    {
      p, q, index := p0, q0, index0;
      for j := 0 to |ys|
        invariant index <= index0
        invariant index == index0 ==> p == p0 && q == q0
        invariant index < index0 ==> p == x && q in ys[..j] && Usable(G, slack[..], x, q) && index == G.EdgeIndex(x, q)
        invariant forall y :: y in ys[..j] && Usable(G, slack[..], x, y) ==> index <= G.EdgeIndex(x, y)
      {
        if IsAdjacent(x, ys[j]) && G.EdgeIndex(x, ys[j]) < index {
          index := G.EdgeIndex(x, ys[j]);
          p, q := x, ys[j];
        }
        assert ys[..j + 1] == ys[..j] + [ys[j]];
      }
      assert ys[..|ys|] == ys;
    }

    /**
     * Turns the circuit of blossom `u` left, one child at a time, until it
     * starts with the child holding vertex `p`; after a full turn without
     * finding `p` it stops, the circuit back as it was.
     */
    method RotateToHolder(u: int, p: int)
      requires Ready() && 0 <= u < 2 * n
      modifies slots
      ensures Ready()
      ensures var c := old(slots[u].shallow);
        && Indexes(c, DeepLists(old(slots[..])))
        && slots[..] == old(slots[..])[u := old(slots[u]).(shallow := Rotate(c, FirstHolding(c, DeepLists(old(slots[..])), p)))]
    {
      var c := slots[u].shallow;
      var sh := TurnToHolder(c, p);
      slots[u] := slots[u].(shallow := sh);
    }

    /** The loop of `RotateToHolder`: turns `c` left one place at a time until its first child holds `p`. */
    method TurnToHolder(c: seq<int>, p: int) returns (sh: seq<int>)
      requires Ready() && forall j :: 0 <= j < |c| ==> 0 <= c[j] < 2 * n
      ensures Indexes(c, DeepLists(slots[..]))
      ensures sh == Rotate(c, FirstHolding(c, DeepLists(slots[..]), p))
      ensures forall j :: 0 <= j < |sh| ==> 0 <= sh[j] < 2 * n
    {
      ghost var d := DeepLists(slots[..]);
      assert Indexes(c, d);
      var k := 0;
      sh := c;
      assert Rotate(c, 0) == c;
      while k < |c| && p !in slots[c[k]].deep
        invariant 0 <= k <= |c| && sh == Rotate(c, k)
        invariant forall j :: 0 <= j < k ==> p !in d[c[j]]
      {
        RotateStep(c, k);
        sh := sh[1..] + [sh[0]];
        k := k + 1;
      }
      assert k == FirstHolding(c, d, p);
      RotateBounded(c, k, 2 * n);
    }

    /**
     * The re-matching inside an expanded blossom `u` whose circuit `c` starts
     * at the new tip: the tip takes `u`'s mate, and the remaining children are
     * matched in consecutive pairs. Only `mate` fields change.
     */
    method PairCircuit(u: int)
      requires Ready() && 0 <= u < 2 * n
      modifies slots
      ensures Ready()
      ensures MatesOnly(old(slots[..]), slots[..], old(slots[u].shallow))
      ensures var c := old(slots[u].shallow);
        Distinct(c) ==>
          && (|c| > 0 ==> slots[c[0]].mate == old(slots[u].mate))
          && PairedUpTo(slots[..], c, |c|)
    {
      var c, mu := slots[u].shallow, slots[u].mate;
      if c == [] {
        return;
      }
      SetMate(c[0], mu);
      MatesOnlyStep(old(slots[..]), old(slots[..]), c, c[0], mu);
      ghost var s1 := slots[..];
      PairFrom(c, mu);
      MatesOnlyTrans(old(slots[..]), s1, slots[..], c);
    }

    /** The loop of `PairCircuit`: matches `c[1]` with `c[2]`, `c[3]` with `c[4]`, and so on. */
    method PairFrom(c: seq<int>, mu: int)
      requires Ready() && |c| > 0 && forall j :: 0 <= j < |c| ==> 0 <= c[j] < 2 * n
      modifies slots
      ensures Ready()
      ensures MatesOnly(old(slots[..]), slots[..], c)
      ensures Distinct(c) && old(slots[c[0]].mate) == mu ==> slots[c[0]].mate == mu && PairedUpTo(slots[..], c, |c|)
    {
      var k := 1;
      while k + 1 < |c|
        invariant 1 <= k <= |c| && k % 2 == 1
        invariant Ready()
        invariant MatesOnly(old(slots[..]), slots[..], c)
        invariant Distinct(c) && old(slots[c[0]].mate) == mu ==> slots[c[0]].mate == mu && PairedUpTo(slots[..], c, k)
        decreases |c| - k
      {
        PairNext(c, k, mu, old(slots[..]));
        k := k + 2;
      }
      PairedToEnd(slots[..], c, k);
    }

    /** One step of `PairFrom`: mates `c[k]` with `c[k+1]`, keeping the loop's invariant relative to `s`. */
    method PairNext(c: seq<int>, k: int, mu: int, ghost s: seq<Slot>)
      requires Ready() && 1 <= k && k + 1 < |c| && k % 2 == 1
      requires forall j :: 0 <= j < |c| ==> 0 <= c[j] < 2 * n
      requires MatesOnly(s, slots[..], c)
      requires Distinct(c) && s[c[0]].mate == mu ==> slots[c[0]].mate == mu && PairedUpTo(slots[..], c, k)
      modifies slots
      ensures Ready()
      ensures MatesOnly(s, slots[..], c)
      ensures Distinct(c) && s[c[0]].mate == mu ==> slots[c[0]].mate == mu && PairedUpTo(slots[..], c, k + 2)
    {
      ghost var s0 := slots[..];
      if Distinct(c) && s[c[0]].mate == mu {
        PairedStep(s0, c, k);
      }
      MatePair(c[k], c[k + 1]);
      ghost var s1 := s0[c[k] := s0[c[k]].(mate := c[k + 1])];
      MatesOnlyStep(s, s0, c, c[k], c[k + 1]);
      MatesOnlyStep(s, s1, c, c[k + 1], c[k]);
    }

    /** Mates `x` with `y` and `y` with `x`; nothing else changes. */
    method MatePair(x: int, y: int)
      requires Ready() && 0 <= x < 2 * n && 0 <= y < 2 * n
      modifies slots
      ensures Ready()
      ensures var s1 := old(slots[..])[x := old(slots[x]).(mate := y)];
        slots[..] == s1[y := s1[y].(mate := x)]
      ensures MatesOnly(old(slots[..]), slots[..], [x, y])
    {
      ghost var s0 := slots[..];
      assert MatesOnly(s0, s0, [x, y]);
      SetMate(x, y);
      MatesOnlyStep(s0, s0, [x, y], x, y);
      ghost var s1 := slots[..];
      SetMate(y, x);
      MatesOnlyStep(s0, s1, [x, y], y, x);
    }

    /** Sets the mate of `x` to `y`; nothing else changes. */
    method SetMate(x: int, y: int)
      requires Ready() && 0 <= x < 2 * n && -1 <= y < 2 * n
      modifies slots
      ensures Ready()
      ensures slots[..] == old(slots[..])[x := old(slots[x]).(mate := y)]
    {
      slots[x] := slots[x].(mate := y);
    }

    /**
     * Every child `c[i]` of an expanded blossom becomes the outer blossom of
     * itself and of the vertices deep in it. Only `outer` fields change; when
     * the children claim disjoint slots, each ends as the outer blossom of
     * exactly what it claims.
     */
    method UnnestAll(c: seq<int>)
      requires Ready() && forall k :: 0 <= k < |c| ==> 0 <= c[k] < 2 * n
      modifies slots
      ensures Ready()
      ensures OutersOnly(old(slots[..]), slots[..])
      ensures Indexes(c, DeepLists(old(slots[..])))
      ensures Separate(c, DeepLists(old(slots[..]))) ==> ClaimedUpTo(slots[..], c, DeepLists(old(slots[..])), |c|)
    {
      ghost var d := DeepLists(slots[..]);
      assert Indexes(c, d);
      for k := 0 to |c|
        invariant Ready()
        invariant OutersOnly(old(slots[..]), slots[..])
        invariant Separate(c, d) ==> ClaimedUpTo(slots[..], c, d, k)
      {
        UnnestOne(c, k, old(slots[..]), d);
      }
    }

    /** One step of `UnnestAll`: child `c[k]` becomes the outer blossom of itself and its deep vertices. */
    method UnnestOne(c: seq<int>, k: int, ghost s: seq<Slot>, ghost d: seq<seq<int>>)
      requires Ready() && forall j :: 0 <= j < |c| ==> 0 <= c[j] < 2 * n
      requires 0 <= k < |c| && |s| == 2 * n && d == DeepLists(s) && Indexes(c, d)
      requires OutersOnly(s, slots[..])
      requires Separate(c, d) ==> ClaimedUpTo(slots[..], c, d, k)
      modifies slots
      ensures Ready()
      ensures OutersOnly(s, slots[..])
      ensures Separate(c, d) ==> ClaimedUpTo(slots[..], c, d, k + 1)
    {
      ghost var s0 := slots[..];
      assert s0[c[k]].deep == s[c[k]].deep;
      assert [c[k]] + slots[c[k]].deep == Claim(c, d, k);
      SetOuter([c[k]] + slots[c[k]].deep, c[k]);
      OutersOnlyStep(s, s0, slots[..], Claim(c, d, k), c[k]);
      if Separate(c, d) {
        ClaimStep(s0, slots[..], c, d, k);
      }
    }

    /**
     * The first half of `Expand`: `u` and its mate's outer blossom `v` are
     * re-matched through the least-index usable edge `(p, q)` between the
     * vertices deep in them: `mate[u] := q`, then `mate[v] := p`.
     */
    method Rematch(u: int) returns (p: int, q: int)
      requires Ready() && 0 <= u < 2 * n && slots[u].mate != -1
      modifies slots
      ensures Ready()
      ensures var v := old(slots[slots[u].mate].outer);
        && IsMinPair(G, slack[..], old(slots[u].deep), old(slots[v].deep), p, q)
        && slots[..] == SetMates(old(slots[..]), u, v, p, q)
    {
      var v := slots[slots[u].mate].outer;
      p, q := FindMinPair(slots[u].deep, slots[v].deep);
      SetMate(u, q);
      SetMate(v, p);
    }

    /**
     * The second half of `Expand` for a blossom `u`: its circuit is turned to
     * start at the child holding `p` and re-matched (`Reorder`), every child
     * becomes the outer blossom of what it holds (`UnnestAll`), and `u` is
     * deactivated and returned to the pool (`Retire`).
     */
    method Dissolve(u: int, p: int, expandBlocked: bool)
      requires Ready() && n <= u < 2 * n && (slots[u].blocked ==> expandBlocked)
      modifies this`free, slots
      ensures Ready()
      ensures Expands(old(slots[..]), old(free), slots[..], free, expandBlocked)
      ensures !slots[u].active && free == old(free) + [u]
      ensures var c0, d := old(slots[u].shallow), DeepLists(old(slots[..]));
        && Indexes(c0, d)
        && var c := Rotate(c0, FirstHolding(c0, d, p));
        && slots[u].shallow == c && Indexes(c, d)
        && CircuitPaired(slots[..], c, old(slots[u].mate))
        && (Separate(c, d) ==> ClaimedUpTo(slots[..], c, d, |c|))
    {
      ghost var c0, d := slots[u].shallow, DeepLists(slots[..]);
      Reorder(u, p, expandBlocked);
      ghost var s1, c := slots[..], slots[u].shallow;
      assert c == Rotate(c0, FirstHolding(c0, d, p)) && DeepLists(s1) == d;
      UnnestAndRetire(u, expandBlocked, old(slots[u].mate));
      ExpandsTrans(old(slots[..]), old(free), s1, old(free), slots[..], free, expandBlocked);
    }

    /**
     * The end of `Dissolve`: every child becomes the outer blossom of what it
     * holds (`UnnestAll`), then `u` is retired. Mates and circuits are kept.
     */
    method UnnestAndRetire(u: int, expandBlocked: bool, ghost mu: int)
      requires Ready() && n <= u < 2 * n && (slots[u].blocked ==> expandBlocked)
      modifies this`free, slots
      ensures Ready()
      ensures Expands(old(slots[..]), old(free), slots[..], free, expandBlocked)
      ensures !slots[u].active && free == old(free) + [u]
      ensures slots[u].shallow == old(slots[u].shallow)
      ensures CircuitPaired(old(slots[..]), old(slots[u].shallow), mu) ==> CircuitPaired(slots[..], old(slots[u].shallow), mu)
      ensures var c, d := old(slots[u].shallow), DeepLists(old(slots[..]));
        Indexes(c, d) && (Separate(c, d) ==> ClaimedUpTo(slots[..], c, d, |c|))
    {
      var c := slots[u].shallow;
      ghost var d := DeepLists(slots[..]);
      UnnestKeeping(c, mu);
      ExpandsByOuters(old(slots[..]), free, slots[..], expandBlocked);
      ghost var s3 := slots[..];
      Retire(u, expandBlocked, c, d, mu);
      ExpandsTrans(old(slots[..]), old(free), s3, old(free), slots[..], free, expandBlocked);
    }

    /** `UnnestAll`, which keeps the re-matching of the circuit `c`. */
    method UnnestKeeping(c: seq<int>, ghost mu: int)
      requires Ready() && forall k :: 0 <= k < |c| ==> 0 <= c[k] < 2 * n
      modifies slots
      ensures Ready()
      ensures OutersOnly(old(slots[..]), slots[..])
      ensures Indexes(c, DeepLists(old(slots[..])))
      ensures Separate(c, DeepLists(old(slots[..]))) ==> ClaimedUpTo(slots[..], c, DeepLists(old(slots[..])), |c|)
      ensures CircuitPaired(old(slots[..]), c, mu) ==> CircuitPaired(slots[..], c, mu)
    {
      UnnestAll(c);
      CircuitPairedKept(old(slots[..]), slots[..], c, mu);
    }

    /**
     * The circuit of `u` is turned to start at the child holding `p`, then the
     * tip takes `u`'s mate and the other children are matched in pairs.
     */
    method Reorder(u: int, p: int, expandBlocked: bool)
      requires Ready() && 0 <= u < 2 * n
      modifies slots
      ensures Ready()
      ensures Expands(old(slots[..]), free, slots[..], free, expandBlocked)
      ensures DeepLists(slots[..]) == DeepLists(old(slots[..]))
      ensures var c0, d := old(slots[u].shallow), DeepLists(old(slots[..]));
        && Indexes(c0, d)
        && var c := Rotate(c0, FirstHolding(c0, d, p));
        && slots[u].shallow == c
        && CircuitPaired(slots[..], c, old(slots[u].mate))
    {
      ghost var c0, d := slots[u].shallow, DeepLists(slots[..]);
      RotateToHolder(u, p);
      ExpandsByRotation(old(slots[..]), free, u, FirstHolding(c0, d, p), expandBlocked);
      ghost var s1 := slots[..];
      PairCircuit(u);
      ExpandsByMates(s1, free, slots[..], Rotate(c0, FirstHolding(c0, d, p)), expandBlocked);
      ExpandsTrans(old(slots[..]), free, s1, free, slots[..], free, expandBlocked);
      assert DeepLists(slots[..]) == d;
    }

    /** The end of `Expand`: `u` is deactivated and pushed to the pool. */
    method Retire(u: int, expandBlocked: bool, ghost c: seq<int>, ghost d: seq<seq<int>>, ghost mu: int)
      requires Ready() && n <= u < 2 * n && (slots[u].blocked ==> expandBlocked)
      requires forall k :: 0 <= k < |c| ==> 0 <= c[k] < 2 * n
      modifies this`free, slots
      ensures Ready()
      ensures Expands(old(slots[..]), old(free), slots[..], free, expandBlocked)
      ensures slots[..] == old(slots[..])[u := old(slots[u]).(active := false)]
      ensures free == old(free) + [u]
      ensures CircuitPaired(old(slots[..]), c, mu) ==> CircuitPaired(slots[..], c, mu)
      ensures Indexes(c, d) && ClaimedUpTo(old(slots[..]), c, d, |c|) ==> ClaimedUpTo(slots[..], c, d, |c|)
    {
      slots[u] := slots[u].(active := false);
      AddFreeBlossomIndex(u);
      ExpandsRelease(old(slots[..]), old(free), u, expandBlocked);
      CircuitPairedKept(old(slots[..]), slots[..], c, mu);
      if Indexes(c, d) && ClaimedUpTo(old(slots[..]), c, d, |c|) {
        ClaimedKept(old(slots[..]), slots[..], c, d, |c|);
      }
    }

    /**
     * Expands `u`: re-matches it with its mate's outer blossom through the
     * least-index usable edge; then, unless `u` is an original vertex or a
     * blocked blossom while `expandBlocked` is false, dissolves it and expands
     * its children in turn while `depth` allows. A slot without a mate is left
     * alone. Blocked blossoms are dissolved only when `expandBlocked` holds.
     */
    method Expand(u: int, expandBlocked: bool, depth: nat) returns (p: int, q: int)
      requires Ready() && 0 <= u < 2 * n
      modifies this`free, slots
      ensures Ready()
      ensures Expands(old(slots[..]), old(free), slots[..], free, expandBlocked)
      ensures old(slots[u].mate) == -1 ==> slots[..] == old(slots[..]) && free == old(free)
      ensures old(slots[u].mate) != -1 ==>
        var v := old(slots[slots[u].mate].outer);
        IsMinPair(G, slack[..], old(slots[u].deep), old(slots[v].deep), p, q)
      ensures old(slots[u].mate != -1 && (u < n || (slots[u].blocked && !expandBlocked))) ==>
        && slots[..] == SetMates(old(slots[..]), u, old(slots[slots[u].mate].outer), p, q)
        && free == old(free)
      ensures old(slots[u].mate != -1 && !(u < n || (slots[u].blocked && !expandBlocked))) ==>
        !slots[u].active
      decreases depth, 2
    {
      if slots[u].mate == -1 {
        ExpandsRefl(slots[..], free, expandBlocked);
        return -1, -1;
      }
      p, q := Rematch(u);
      ExpandsByMates(old(slots[..]), free, slots[..], [u, old(slots[slots[u].mate].outer)], expandBlocked);
      if u < n || (slots[u].blocked && !expandBlocked) {
        return;
      }
      ghost var s1, f1 := slots[..], free;
      DissolveAndDescend(u, p, expandBlocked, depth);
      ExpandsTrans(old(slots[..]), old(free), s1, f1, slots[..], free, expandBlocked);
    }

    /** `Dissolve`, then the expansion of the children of `u`. */
    method DissolveAndDescend(u: int, p: int, expandBlocked: bool, depth: nat)
      requires Ready() && n <= u < 2 * n && (slots[u].blocked ==> expandBlocked)
      modifies this`free, slots
      ensures Ready()
      ensures Expands(old(slots[..]), old(free), slots[..], free, expandBlocked)
      ensures !slots[u].active
      ensures Extends(old(free) + [u], free)
      decreases depth, 1
    {
      Dissolve(u, p, expandBlocked);
      ghost var s2, f2 := slots[..], free;
      var c := slots[u].shallow;
      ghost var states, pools := ExpandChildren(c, expandBlocked, depth);
      ExpandsTrans(old(slots[..]), old(free), s2, f2, slots[..], free, expandBlocked);
      PoolKept(s2, f2, slots[..], free, expandBlocked);
      InactiveKept(s2, f2, slots[..], free, expandBlocked);
    }

    /** One `Expand(x, expandBlocked)`, stated as an `ExpandStep`. */
    method ExpandTurn(x: int, expandBlocked: bool, depth: nat)
      requires Ready() && 0 <= x < 2 * n
      modifies this`free, slots
      ensures Ready()
      ensures ExpandStep(G, slack[..], n, old(slots[..]), old(free), slots[..], free, x, expandBlocked)
      decreases depth, 3
    {
      var p, q := Expand(x, expandBlocked, depth);
      ExpandStepOf(G, slack[..], n, old(slots[..]), old(free), slots[..], free, x, expandBlocked, p, q);
    }

    /**
     * The recursion of `Expand` over the children `c` of a dissolved blossom,
     * while `depth` allows. `states` and `pools` are the slots and the pool
     * as each child's turn began, and at the end: each turn is the
     * `ExpandStep` of its child, and every child that was a dissolvable
     * blossom at its turn ends inactive.
     */
    method ExpandChildren(c: seq<int>, expandBlocked: bool, depth: nat) returns (ghost states: seq<seq<Slot>>, ghost pools: seq<seq<int>>)
      requires Ready() && forall k :: 0 <= k < |c| ==> 0 <= c[k] < 2 * n
      modifies this`free, slots
      ensures Ready()
      ensures Expands(old(slots[..]), old(free), slots[..], free, expandBlocked)
      ensures depth == 0 ==> slots[..] == old(slots[..]) && free == old(free)
      ensures depth > 0 ==>
        && ChildrenSoFar(G, slack[..], n, c, old(slots[..]), old(free), states, pools, |c|, expandBlocked)
        && states[|c|] == slots[..] && pools[|c|] == free
      decreases depth, 0
    {
      ExpandsRefl(slots[..], free, expandBlocked);
      states, pools := [slots[..]], [free];
      if depth == 0 {
        return;
      }
      for k := 0 to |c|
        invariant Ready()
        invariant ChildrenSoFar(G, slack[..], n, c, old(slots[..]), old(free), states, pools, k, expandBlocked)
        invariant states[k] == slots[..] && pools[k] == free
      {
        ExpandTurn(c[k], expandBlocked, depth - 1);
        ChildrenSoFarNext(G, slack[..], n, c, old(slots[..]), old(free), states, pools, k, expandBlocked, slots[..], free);
        states, pools := states + [slots[..]], pools + [free];
      }
    }

    /***** Augmentation *****/

    /**
     * Matches `p` with `q`, then expands both. Two original vertices, each
     * its own outer blossom and joined by a usable edge, end mated.
     */
    method Flip(p: int, q: int)
      requires Ready() && 0 <= p < 2 * n && 0 <= q < 2 * n
      modifies this`free, slots
      ensures Ready()
      ensures Expands(old(slots[..]), old(free), slots[..], free, false)
      ensures old(p < n && q < n && p != q && slots[p].outer == p && slots[q].outer == q && Usable(G, slack[..], p, q)) ==>
        slots[p].mate == q && slots[q].mate == p
    {
      MateAndExpand(p, q);
      ghost var s1, f1 := slots[..], free;
      UsableSymmetric(G, slack[..], p, q);
      ExpandEnd(q, p);
      ExpandsTrans(old(slots[..]), old(free), s1, f1, slots[..], free, false);
    }

    /** The first half of `Flip`: mates `p` and `q`, then expands `p`. */
    method MateAndExpand(p: int, q: int)
      requires Ready() && 0 <= p < 2 * n && 0 <= q < 2 * n
      modifies this`free, slots
      ensures Ready()
      ensures Expands(old(slots[..]), old(free), slots[..], free, false)
      ensures old(p < n && q < n && p != q && slots[p].outer == p && slots[q].outer == q && Usable(G, slack[..], p, q)) ==>
        && slots[p].mate == q && slots[q].mate == p && slots[p].outer == p && slots[q].outer == q
    {
      MatePair(p, q);
      ExpandsByMates(old(slots[..]), free, slots[..], [p, q], false);
      ghost var s1, f1 := slots[..], free;
      ExpandEnd(p, q);
      ExpandsTrans(old(slots[..]), old(free), s1, f1, slots[..], free, false);
    }

    /**
     * One end of `Flip`: expands `x`, just mated to `y`. When both are
     * original vertices, each its own outer blossom, joined by a usable edge,
     * the expansion re-matches them to each other and nothing else changes.
     */
    method ExpandEnd(x: int, y: int)
      requires Ready() && 0 <= x < 2 * n && 0 <= y < 2 * n
      modifies this`free, slots
      ensures Ready()
      ensures ExpandStep(G, slack[..], n, old(slots[..]), old(free), slots[..], free, x, false)
      ensures old(&& x < n && y < n && x != y && slots[x].mate == y && slots[y].mate == x
                  && slots[x].outer == x && slots[y].outer == y && Usable(G, slack[..], x, y)) ==>
        slots[..] == old(slots[..])
    {
      var a, b := Expand(x, false, n);
      ExpandStepOf(G, slack[..], n, old(slots[..]), old(free), slots[..], free, x, false, a, b);
      if old(x < n && y < n && x != y && slots[x].mate == y && slots[y].mate == x
             && slots[x].outer == x && slots[y].outer == y && Usable(G, slack[..], x, y)) {
        MinPairOfSingles(G, slack[..], x, y, a, b);
        MatesKept(old(slots[..]), x, y);
      }
    }

    /**
     * Walks from blossom `p` up its tree of the alternating forest, two levels
     * at a time, flipping each matched edge on the way: `q` is the outer
     * blossom of `p`'s parent, the new `p` the outer blossom of `q`'s parent.
     * The walk ends at a root; it also ends where `q` has no parent, and after
     * `2n` steps.
     */
    method FlipPathToRoot(p0: int)
      requires Ready() && 0 <= p0 < 2 * n
      modifies this`free, slots
      ensures Ready()
      ensures Expands(old(slots[..]), old(free), slots[..], free, false)
      ensures old(slots[p0].forest) == -1 ==> slots[..] == old(slots[..]) && free == old(free)
    {
      ExpandsRefl(slots[..], free, false);
      var p, steps := p0, 0;
      var fp := slots[p].forest;
      while fp != -1 && steps < 2 * n
        invariant Ready() && 0 <= p < 2 * n && -1 <= fp < 2 * n
        invariant Expands(old(slots[..]), old(free), slots[..], free, false)
        invariant steps == 0 ==> fp == old(slots[p0].forest) && slots[..] == old(slots[..]) && free == old(free)
        invariant old(slots[p0].forest) == -1 ==> steps == 0
        decreases 2 * n - steps
      {
        var q := slots[fp].outer;
        if slots[q].forest == -1 {
          break;
        }
        p := slots[slots[q].forest].outer;
        fp := slots[p].forest;
        ghost var s1, f1 := slots[..], free;
        Flip(p, q);
        ExpandsTrans(old(slots[..]), old(free), s1, f1, slots[..], free, false);
        steps := steps + 1;
      }
    }

    /**
     * Augments the matching along the path from the root of `u`'s tree to
     * `u`, across the edge `(u, v)`, and on to the root of `v`'s tree. Only
     * `mate`, `outer`, `active` and the order of `shallow` lists change, and
     * blocked blossoms are not dissolved.
     */
    method Augment(u: int, v: int)
      requires Ready() && 0 <= u < 2 * n && 0 <= v < 2 * n
      modifies this`free, slots
      ensures Ready()
      ensures Expands(old(slots[..]), old(free), slots[..], free, false)
    {
      var p, q := slots[u].outer, slots[v].outer;
      Flip(p, q);
      ghost var s1, f1 := slots[..], free;
      FlipPathToRoot(p);
      ExpandsTrans(old(slots[..]), old(free), s1, f1, slots[..], free, false);
      ghost var s2, f2 := slots[..], free;
      FlipPathToRoot(q);
      ExpandsTrans(old(slots[..]), old(free), s2, f2, slots[..], free, false);
    }

    /***** Resetting the forest *****/

    /**
     * One step of the forest reset: cuts the forest link of slot `i` and
     * destroys it if it is an active outer blossom.
     */
    method ResetSlot(i: int)
      requires Ready() && 0 <= i < 2 * n
      modifies this`free, slots
      ensures Ready()
      ensures Dismantles(old(slots[..])[i := old(slots[i]).(forest := -1, root := i)], old(free), slots[..], free)
    {
      slots[i] := slots[i].(forest := -1, root := i);
      ghost var s1 := slots[..];
      DismantlesRefl(s1, free);
      if i >= n && slots[i].active && slots[i].outer == i {
        DestroyBlossom(i, n);
      }
    }

    /**
     * Cuts every forest link (no parent, each slot its own root) and destroys
     * every active outer blossom, in ascending slot order.
     */
    method ResetForest()
      requires Ready()
      modifies this`free, slots
      ensures Ready()
      ensures Dismantles(Unhook(old(slots[..]), 2 * n), old(free), slots[..], free)
    {
      DismantlesRefl(Unhook(slots[..], 0), free);
      assert Unhook(slots[..], 0) == slots[..];
      for i := 0 to 2 * n
        invariant Ready()
        invariant Dismantles(Unhook(old(slots[..]), i), old(free), slots[..], free)
      {
        ghost var s1, f1 := slots[..], free;
        ResetSlot(i);
        DismantlesUnhook(old(slots[..]), old(free), s1, f1, i);
        DismantlesTrans(Unhook(old(slots[..]), i + 1), old(free), s1[i := s1[i].(forest := -1, root := i)], f1, slots[..], free);
      }
    }

    /** Clears every visit mark. */
    method ClearVisited()
      requires Ready()
      modifies slots
      ensures Ready()
      ensures forall x :: 0 <= x < 2 * n ==> slots[x] == old(slots[x]).(visited := false)
    {
      forall x | 0 <= x < 2 * n {
        slots[x] := slots[x].(visited := false);
      }
    }

    /** Labels the outer blossom of vertex `i` and queues `i` if that blossom is unmatched and unvisited. */
    method LabelVertex(i: int)
      requires Ready() && 0 <= i < n
      modifies this`forestList, slots
      ensures Ready()
      ensures slots[..] == Mark(old(slots[..]), i)
      ensures forestList == Enqueue(old(slots[..]), old(forestList), i)
    {
      var o := slots[i].outer;
      if slots[o].mate == -1 {
        if !slots[o].visited {
          forestList := forestList + [i];
        }
        slots[o] := slots[o].(kind := Even, visited := true);
      } else {
        slots[o] := slots[o].(kind := Unlabeled);
      }
    }

    /**
     * Labels the outer blossom of every vertex, EVEN when unmatched and
     * UNLABELED otherwise, and queues the first vertex of every unmatched
     * outer blossom as a root of the forest to grow.
     */
    method LabelRoots()
      requires Ready() && forestList == []
      requires forall x :: 0 <= x < 2 * n ==> !slots[x].visited
      modifies this`forestList, slots
      ensures Ready()
      ensures Labelled(old(slots[..]), slots[..], forestList, n)
    {
      LabelledStart(slots[..]);
      for i := 0 to n
        invariant Ready()
        invariant Labelled(old(slots[..]), slots[..], forestList, i)
      {
        ghost var s1 := slots[..];
        KindsStep(old(slots[..]), s1, i);
        VisitedStep(old(slots[..]), s1, i);
        QueueStep(old(slots[..]), s1, i);
        LabelVertex(i);
      }
    }

    /** Clears the visit marks and the queue, then labels the roots afresh. */
    method Relabel()
      requires Ready()
      modifies this`forestList, slots
      ensures Ready()
      ensures Labelled(Unvisit(old(slots[..])), slots[..], forestList, n)
    {
      ClearVisited();
      assert slots[..] == Unvisit(old(slots[..]));
      forestList := [];
      LabelRoots();
    }

    /**
     * Resets the alternating forest: every slot loses its parent and becomes
     * its own root, every active outer blossom is destroyed, the outer
     * blossom of each vertex is labelled EVEN when unmatched and UNLABELED
     * otherwise, and the queue of roots holds the first vertex of each
     * unmatched outer blossom; a blossom is visited exactly when it is queued.
     */
    method Reset()
      requires Ready()
      modifies this`free, this`forestList, slots
      ensures Ready()
      ensures forall x :: 0 <= x < 2 * n ==> slots[x].forest == -1 && slots[x].root == x
      ensures Dismantles(Plain(Unhook(old(slots[..]), 2 * n)), old(free), Plain(slots[..]), free)
      ensures VertexOuters(slots[..], 2 * n) && KindsSet(slots[..], slots[..], n)
      ensures VisitedExactly(slots[..], slots[..], n)
      ensures forestList == Firsts(OuterOf(slots[..], 2 * n), UnmatchedOf(slots[..], 2 * n), n)
      ensures KindsFrom(old(slots[..]), slots[..], n)
      ensures FreshForest(slots[..], forestList, n)
    {
      ResetForest();
      ghost var s1 := slots[..];
      Relabel();
      assert SameButLabels(s1, slots[..]);
      DismantlesPlain(Unhook(old(slots[..]), 2 * n), old(free), s1, free, slots[..]);
      LabelledSelf(Unvisit(s1), slots[..], forestList, n);
      ResetKinds(old(slots[..]), old(free), s1, free, slots[..], forestList, n);
      FreshForestOf(slots[..], forestList, n);
    }

    /***** Contracting a blossom *****/

    lemma LinkedSlots()
      requires Valid()
      ensures Linked(OuterOf(slots[..], 2 * n), ForestOf(slots[..]))
    {
    }

    /** The tip and the odd circuit of the blossom closed by an edge between vertices `u` and `v`. */
    method FindCircuit(u: int, v: int) returns (tip: int, c: seq<int>)
      requires Ready() && 0 <= u < 2 * n && 0 <= v < 2 * n
      ensures Linked(OuterOf(slots[..], 2 * n), ForestOf(slots[..]))
      ensures var o, f := OuterOf(slots[..], 2 * n), ForestOf(slots[..]);
        tip == Tip(o, f, o[u], o[v], 2 * n) && c == Circuit(o, f, o[u], o[v], 2 * n)
    {
      LinkedSlots();
      var o, f := OuterOf(slots[..], 2 * n), ForestOf(slots[..]);
      var inPath := MarkPath(o, f, u);
      tip := FindTip(o, f, inPath, v);
      c := CircuitDown(o, f, u, tip);
      c := CircuitUp(o, f, c, v, tip);
    }

    /** Appends vertex `z` to the deep list of blossom slot `t` and makes `t` its outer blossom. */
    method AbsorbVertex(t: int, z: int)
      requires Ready() && n <= t < 2 * n && 0 <= z < n
      modifies slots
      ensures Ready()
      ensures var b := old(slots[..])[t := old(slots[t]).(deep := old(slots[t].deep) + [z])];
        slots[..] == b[z := b[z].(outer := t)]
    {
      slots[t] := slots[t].(deep := slots[t].deep + [z]);
      slots[z] := slots[z].(outer := t);
    }

    /**
     * Contracts child `x` into blossom slot `t`: `x` and the vertices deep in
     * it get `t` as outer blossom, and those vertices join `t`'s deep list.
     */
    method AbsorbChild(t: int, x: int)
      requires Ready() && n <= t < 2 * n && 0 <= x < 2 * n
      modifies slots
      ensures Ready()
      ensures slots[..] == AbsorbOne(old(slots[..]), t, x)
    {
      ghost var s0 := slots[..];
      slots[x] := slots[x].(outer := t);
      var d := slots[x].deep;
      AbsorbPartStart(s0, t, x);
      assert d[..0] == [];
      for j := 0 to |d|
        invariant Ready()
        invariant slots[..] == AbsorbPart(s0, t, x, d[..j])
      {
        AbsorbPartStep(s0, t, x, d, j);
        AbsorbVertex(t, d[j]);
      }
      assert d[..|d|] == d;
    }

    /** Names `tip` as the tip of blossom slot `t`, makes `c` its children and contracts them into it, in order. */
    method Contract(t: int, tip: int, c: seq<int>)
      requires Ready() && n <= t < 2 * n && 0 <= tip < 2 * n && forall k :: 0 <= k < |c| ==> 0 <= c[k] < 2 * n
      modifies slots
      ensures Ready()
      ensures slots[..] == Contraction(old(slots[..]), t, tip, c)
    {
      slots[t] := slots[t].(tip := tip, shallow := c, deep := []);
      ghost var s1 := slots[..];
      for k := 0 to |c|
        invariant Ready()
        invariant slots[..] == AbsorbAll(s1, t, c, k)
      {
        AbsorbChild(t, c[k]);
      }
    }

    /** Gives blossom slot `t` the place of `tip` in the forest, as an active EVEN outer blossom. */
    method CrownSlot(t: int, tip: int)
      requires Ready() && n <= t < 2 * n && 0 <= tip < 2 * n
      modifies slots
      ensures Ready()
      ensures slots[..] == Crown(old(slots[..]), t, tip)
    {
      slots[t] := slots[t].(forest := slots[tip].forest, kind := Even, root := slots[tip].root,
                            active := true, outer := t, mate := slots[tip].mate);
    }

    /**
     * Contracts the odd circuit closed by the edge between vertices `u` and
     * `v` into a blossom taken from the pool, and returns it: the new blossom
     * is an active EVEN outer blossom in the tip's place in the forest.
     */
    method Blossom(u: int, v: int) returns (t: int)
      requires Ready() && 0 <= u < 2 * n && 0 <= v < 2 * n && free != []
      modifies this`free, slots
      ensures Ready()
      ensures t == old(free[|free| - 1]) && free == old(free[..|free| - 1]) && n <= t < 2 * n
      ensures Linked(OuterOf(old(slots[..]), 2 * n), ForestOf(old(slots[..])))
      ensures BlossomMade(old(slots[..]), slots[..], t, u, v)
    {
      t := GetFreeBlossomIndex();
      var tp, c := FindCircuit(u, v);
      ghost var s0 := slots[..];
      assert DeepAvoids(s0, t);
      Contract(t, tp, c);
      CrownSlot(t, tp);
      BlossomMadeFrom(s0, t, u, v, tp, c, slots[..]);
    }

    /***** Costs and results *****/

    /** `min(0, min slack)`, found by a scan that keeps the least value met so far. */
    method LowestSlack() returns (minEdge: real)
      requires Shape()
      ensures minEdge == LowestOrZero(slack[..])
    {
      minEdge := 0.0;
      for i := 0 to m
        invariant minEdge == LowestOrZero(slack[..i])
      {
        assert slack[..i + 1][..i] == slack[..i];
        if minEdge - slack[i] > 0.0 {
          minEdge := slack[i];
        }
      }
      assert slack[..m] == slack[..];
    }

    /**
     * Shifts every slack by the same constant, `min(0, min slack)`, so that
     * none is negative (`ShiftMakesNonNegative`).
     */
    method PositiveCosts()
      requires Ready()
      modifies slack
      ensures Ready()
      ensures slack[..] == Lowered(old(slack[..]), LowestOrZero(old(slack[..])))
    {
      var minEdge := LowestSlack();
      for i := 0 to m
        invariant forall j :: 0 <= j < i ==> slack[j] == old(slack[j]) - minEdge
        invariant forall j :: i <= j < m ==> slack[j] == old(slack[j])
      {
        slack[i] := slack[i] - minEdge;
      }
    }

    /** Sets `perfect` exactly when the outer blossom of every original vertex is matched. */
    method CheckPerfect()
      requires Ready()
      modifies this`perfect
      ensures perfect <==> forall i :: 0 <= i < n ==> slots[slots[i].outer].mate != -1
    {
      var all := true;
      for i := 0 to n
        invariant all <==> forall j :: 0 <= j < i ==> slots[slots[j].outer].mate != -1
      {
        if slots[slots[i].outer].mate == -1 {
          all := false;
        }
      }
      perfect := all;
    }

    /**
     * Fully expands every active, matched outer blossom, blocked or not, in
     * ascending order of slot. `states` and `pools` are the slots and the
     * pool as the scan reached each slot, and at the end: each step is the
     * `MatchedStep` of its slot, and every blossom slot that was active,
     * matched and its own outer blossom when the scan reached it ends inactive.
     */
    method ExpandMatched() returns (ghost states: seq<seq<Slot>>, ghost pools: seq<seq<int>>)
      requires Ready()
      modifies this`free, slots
      ensures Ready()
      ensures MatchedSoFar(G, slack[..], n, old(slots[..]), old(free), states, pools, 2 * n)
      ensures states[2 * n] == slots[..] && pools[2 * n] == free
    {
      ExpandsRefl(slots[..], free, true);
      states, pools := [slots[..]], [free];
      for i := 0 to 2 * n
        invariant Ready()
        invariant MatchedSoFar(G, slack[..], n, old(slots[..]), old(free), states, pools, i)
        invariant states[i] == slots[..] && pools[i] == free
      {
        if slots[i].active && slots[i].mate != -1 && slots[i].outer == i {
          ExpandTurn(i, true, n);
        }
        MatchedSoFarNext(G, slack[..], n, old(slots[..]), old(free), states, pools, i, slots[..], free);
        states, pools := states + [slots[..]], pools + [free];
      }
    }

    /** The edges whose first endpoint is mated to the second, in ascending order of index. */
    method ReadMatching() returns (ids: seq<int>)
      requires Ready()
      ensures ids == SelectedUpTo(G, MatesOf(slots[..]), m)
    {
      ids := ReadSelected(G, MatesOf(slots[..]));
    }

    /**
     * Expands every matched outer blossom, so that original vertices carry
     * their mates, and reads the matched edges off: ascending edge indices
     * `i` whose endpoints `(u, v)` have `mate[u] == v`.
     */
    method RetrieveMatching() returns (ids: seq<int>, ghost states: seq<seq<Slot>>, ghost pools: seq<seq<int>>)
      requires Ready()
      modifies this`free, slots
      ensures Ready()
      ensures MatchedSoFar(G, slack[..], n, old(slots[..]), old(free), states, pools, 2 * n)
      ensures states[2 * n] == slots[..] && pools[2 * n] == free
      ensures ids == SelectedUpTo(G, MatesOf(slots[..]), m)
    {
      states, pools := ExpandMatched();
      ids := ReadMatching();
    }

    /***** The greedy warm start *****/

    /** The number of usable (not blocked) edges at each original vertex. */
    method CountDegrees() returns (degree: seq<int>)
      requires Shape()
      ensures degree == Degrees(G, slack[..])
    {
      degree := seq(n, _ => 0);
      for i := 0 to m
        invariant |degree| == n && forall x :: 0 <= x < n ==> degree[x] == Degree(G, slack[..], x, i)
      {
        if slack[i] <= 0.0 {
          var (u, v) := G.edges[i];
          degree := degree[u := degree[u] + 1];
          degree := degree[v := degree[v] + 1];
        }
      }
      assert slack[..] == slack[..m];
    }

    /**
     * Looks at vertex `u` once: if its outer blossom is unmatched, mates it
     * to the first fitting neighbour of least degree, when there is one.
     */
    method MatchGreedily(u: int, degree: seq<int>) returns (partner: int)
      requires Ready() && 0 <= u < n && |degree| == n
      modifies slots
      ensures Ready()
      ensures MatesAdded(old(slots[..]), slots[..])
      ensures Settled(G, slack[..], slots[..], u)
      ensures partner == -1 ==> slots[..] == old(slots[..])
      ensures partner != -1 ==> && old(slots[slots[u].outer].mate) == -1
                                && Fits(G, slack[..], OuterOf(old(slots[..]), 2 * n), MatesOf(old(slots[..])), u, partner)
                                && (forall v :: Fits(G, slack[..], OuterOf(old(slots[..]), 2 * n), MatesOf(old(slots[..])), u, v)
                                      ==> degree[partner] <= degree[v])
                                && slots[..] == SetMates(old(slots[..]), old(slots[u].outer), old(slots[partner].outer), u, partner)
    {
      partner := -1;
      ghost var s0 := slots[..];
      var ou := slots[u].outer;
      if slots[ou].mate == -1 {
        partner := PickPartner(G, slack[..], OuterOf(slots[..], 2 * n), MatesOf(slots[..]), u, degree);
        if partner != -1 {
          var op := slots[partner].outer;
          SetMate(ou, partner);
          SetMate(op, u);
        }
        MatchSettles(G, slack[..], s0, u, partner, slots[..]);
      }
    }

    /** One `MatchGreedily(u, degree)`, stated as a `GreedyStep`. */
    method GreedyTurn(u: int, degree: seq<int>)
      requires Ready() && 0 <= u < n && |degree| == n
      modifies slots
      ensures Ready()
      ensures GreedyStep(G, slack[..], degree, old(slots[..]), slots[..], u)
    {
      var partner := MatchGreedily(u, degree);
      GreedyStepOf(G, slack[..], degree, old(slots[..]), slots[..], u, partner);
    }

    /**
     * The greedy warm start: takes the vertices in non-decreasing order of
     * their degree over usable edges (`order`), and mates each one whose outer
     * blossom is still unmatched to a fitting neighbour of least degree.
     * `states` holds the slots as each vertex's turn began, and at the end.
     * Only unmatched blossoms gain mates, and afterwards every vertex is
     * settled: matched, or without any fitting partner.
     */
    method Heuristic() returns (ghost order: seq<int>, ghost states: seq<seq<Slot>>)
      requires Ready()
      modifies slots
      ensures Ready()
      ensures Drawn(order, [], Degrees(G, slack[..])) && |order| == n
      ensures GreedySoFar(G, slack[..], Degrees(G, slack[..]), old(slots[..]), order, states)
      ensures states[|order|] == slots[..]
      ensures forall u :: 0 <= u < n ==> Settled(G, slack[..], slots[..], u)
    {
      var degree := CountDegrees();
      var pending := seq(n, x => x);
      order, states := [], [slots[..]];
      DrawnStart(degree);
      while pending != []
        invariant Ready()
        invariant Drawn(order, pending, degree) && |order| + |pending| == n
        invariant GreedySoFar(G, slack[..], degree, old(slots[..]), order, states)
        invariant states[|order|] == slots[..]
        decreases |pending|
      {
        var k := DeleteMin(pending, degree);
        var u := pending[k];
        DrawnStep(order, pending, degree, k);
        pending := pending[..k] + pending[k + 1..];
        GreedyTurn(u, degree);
        GreedySoFarNext(G, slack[..], degree, old(slots[..]), order, states, u, slots[..]);
        order, states := order + [u], states + [slots[..]];
      }
      EverySettled(G, slack[..], slots[..], order, degree);
    }

    /***** The dual update *****/

    /**
     * One scan over the edges: the least slack of an EVEN-UNLABELED edge
     * (`e1`) and of an EVEN-EVEN edge between two outer blossoms (`e2`),
     * `None` where there is no such edge.
     */
    method LeastSlacks() returns (e1: Option<real>, e2: Option<real>)
      requires Ready()
      ensures e1 == Least(slack[..], Classes(Views(slots[..], G), true), m)
      ensures e2 == Least(slack[..], Classes(Views(slots[..], G), false), m)
    {
      var views := Views(slots[..], G);
      ghost var sl, c1, c2 := slack[..], Classes(views, true), Classes(views, false);
      e1, e2 := None, None;
      for i := 0 to m
        invariant e1 == Least(sl, c1, i)
        invariant e2 == Least(sl, c2, i)
      {
        var w, x := views[i], slack[i];
        LeastNext(sl, c1, i);
        LeastNext(sl, c2, i);
        if EvenToFree(w) {
          if e1.None? || e1.value > x {
            e1 := Some(x);
          }
        } else if w.apart && w.lu == Even && w.lv == Even {
          if e2.None? || e2.value > x {
            e2 := Some(x);
          }
        }
      }
    }

    /** The least dual of an active ODD outer blossom (`e3`), `None` when there is none. */
    method LeastOddDual() returns (e3: Option<real>)
      requires Ready()
      ensures e3 == Least(DualsOf(slots[..]), OddOuters(slots[..], n), 2 * n)
    {
      ghost var xs, sel := DualsOf(slots[..]), OddOuters(slots[..], n);
      LeastIsLeast(xs, sel, n);
      e3 := None;
      for i := n to 2 * n
        invariant e3 == Least(xs, sel, i)
      {
        LeastNext(xs, sel, i);
        var w := slots[i];
        if w.active && i == w.outer && slots[w.outer].kind == Odd && (e3.None? || e3.value > w.dual) {
          e3 := Some(w.dual);
        }
      }
    }

    /** Moves the dual of every active outer blossom by the step: up when EVEN, down when ODD. */
    method ShiftDuals(e: real)
      requires Ready()
      modifies slots
      ensures Ready()
      ensures slots[..] == DualShifted(old(slots[..]), e)
    {
      ghost var s0 := slots[..];
      for i := 0 to 2 * n
        invariant forall x :: 0 <= x < i ==> slots[x] == s0[x].(dual := s0[x].dual + DualDelta(s0[x], x, e))
        invariant forall x :: i <= x < 2 * n ==> slots[x] == s0[x]
      {
        var w := slots[i];
        if i == w.outer {
          if w.active && w.kind == Even {
            slots[i] := w.(dual := w.dual + e);
          } else if w.active && w.kind == Odd {
            slots[i] := w.(dual := w.dual - e);
          }
        }
      }
    }

    /** Moves every slack by the change the step makes to the reduced cost of its edge (`SlackChange`). */
    method ShiftSlacks(e: real)
      requires Ready()
      modifies slack
      ensures slack[..] == Shifted(old(slack[..]), Views(slots[..], G), e)
    {
      var views := Views(slots[..], G);
      ghost var s0 := slack[..];
      for i := 0 to m
        invariant forall j :: 0 <= j < i ==> slack[j] == s0[j] + SlackChange(views[j], e)
        invariant forall j :: i <= j < m ==> slack[j] == s0[j]
      {
        var w := views[i];
        if w.apart {
          if w.lu == Even && w.lv == Even {
            slack[i] := slack[i] - 2.0 * e;
          } else if w.lu == Odd && w.lv == Odd {
            slack[i] := slack[i] + 2.0 * e;
          } else if (w.lv == Unlabeled && w.lu == Even) || (w.lu == Unlabeled && w.lv == Even) {
            slack[i] := slack[i] - e;
          } else if (w.lv == Unlabeled && w.lu == Odd) || (w.lu == Unlabeled && w.lv == Odd) {
            slack[i] := slack[i] + e;
          }
        }
      }
    }

    /**
     * Settles blossom slot `i`: blocks it when its dual is positive, and
     * otherwise, when it is active and blocked, destroys it if unmatched or
     * unblocks and expands it if matched. Duals do not move, and no settled
     * slot becomes unsettled.
     */
    method UnblockSlot(i: int)
      requires Ready() && n <= i < 2 * n
      modifies this`free, slots
      ensures Ready()
      ensures BlockSettled(slots[i])
      ensures forall j :: 0 <= j < 2 * n && BlockSettled(old(slots[j])) ==> BlockSettled(slots[j])
      ensures DualsOf(slots[..]) == DualsOf(old(slots[..]))
    {
      if slots[i].dual > 0.0 {
        slots[i] := slots[i].(blocked := true);
        assert DualsOf(slots[..]) == DualsOf(old(slots[..]));
      } else if slots[i].active && slots[i].blocked {
        if slots[i].mate == -1 {
          DestroyBlossom(i, n);
          BlockSettledDismantles(old(slots[..]), old(free), slots[..], free);
        } else {
          slots[i] := slots[i].(blocked := false);
          ghost var s1, f1 := slots[..], free;
          assert DualsOf(s1) == DualsOf(old(slots[..]));
          var _, _ := Expand(i, false, n);
          BlockSettledExpands(s1, f1, slots[..], free);
        }
      }
    }

    /** Settles every blossom slot in turn (`UnblockSlot`). */
    method UnblockAll()
      requires Ready()
      modifies this`free, slots
      ensures Ready()
      ensures forall j :: n <= j < 2 * n ==> BlockSettled(slots[j])
      ensures DualsOf(slots[..]) == DualsOf(old(slots[..]))
    {
      for i := n to 2 * n
        invariant Ready()
        invariant forall j :: n <= j < i ==> BlockSettled(slots[j])
        invariant DualsOf(slots[..]) == DualsOf(old(slots[..]))
      {
        UnblockSlot(i);
      }
    }

    /**
     * The dual update: the step `e` is the least of `e1`, `e2 / 2` and
     * `e3` (`DualStep`); the duals of active outer blossoms move by it (up
     * for EVEN, down for ODD), every slack moves by the matching change of
     * its reduced cost, and then every blossom slot with positive dual is
     * blocked while every active one without is unblocked, destroyed or
     * expanded.
     */
    method UpdateDualCosts() returns (e: real)
      requires Ready()
      modifies this`free, slots, slack
      ensures Ready()
      ensures e == DualStep(old(slots[..]), old(slack[..]), G, n)
      ensures slack[..] == Shifted(old(slack[..]), Views(old(slots[..]), G), e)
      ensures DualsOf(slots[..]) == DualsOf(DualShifted(old(slots[..]), e))
      ensures forall j :: n <= j < 2 * n ==> BlockSettled(slots[j])
    {
      e := ComputeStep();
      ShiftDuals(e);
      ViewsIgnoreDuals(old(slots[..]), G, e);
      ShiftSlacks(e);
      UnblockAll();
    }

    /**
     * The step of the dual update: `e1` if there is one, else `e2`, else
     * `e3`, else 0; then lowered to `e2 / 2` and to `e3` where those exist
     * and are smaller. It is the least of the bounds (`StepIsLeastBound`).
     */
    method ComputeStep() returns (e: real)
      requires Ready()
      ensures e == DualStep(slots[..], slack[..], G, n)
    {
      var e1, e2 := LeastSlacks();
      var e3 := LeastOddDual();
      e := 0.0;
      if e1.Some? {
        e := e1.value;
      } else if e2.Some? {
        e := e2.value;
      } else if e3.Some? {
        e := e3.value;
      }
      if e2.Some? && e > e2.value / 2.0 {
        e := e2.value / 2.0;
      }
      if e3.Some? && e > e3.value {
        e := e3.value;
      }
    }

    /***** Growing the alternating forest *****/

    /**
     * Grows the forest through the edge from `u` to `v` (`GrowOnto`), and
     * queues `vm`, the mate of `v`'s outer blossom, unless that blossom was
     * visited already.
     */
    method GrowAlong(u: int, v: int)
      requires Ready() && GrowsInRange(slots[..], u, v)
      modifies this`forestList, slots
      ensures Ready()
      ensures slots[..] == GrowOnto(old(slots[..]), u, v)
      ensures var vm := old(slots[slots[v].outer].mate);
        forestList == old(forestList) + if old(slots[slots[vm].outer].visited) then [] else [vm]
    {
      ghost var s0 := slots[..];
      var ov := slots[v].outer;
      var vm := slots[ov].mate;
      SetLabel(ov, u, Odd, slots[slots[u].outer].root);
      var ovm := slots[vm].outer;
      assert ovm == s0[vm].outer && slots[ovm].visited == s0[ovm].visited;
      SetLabel(ovm, v, Even, slots[slots[u].outer].root);
      if !slots[ovm].visited {
        forestList := forestList + [vm];
      }
      MarkVisited(ovm);
    }

    /** `GrowAlong`, seen from the scan: no mate, no nesting and no pool entry changes, and the queue only grows. */
    method GrowKeeping(u: int, v: int)
      requires Ready() && GrowsInRange(slots[..], u, v)
      modifies this`forestList, slots
      ensures Ready()
      ensures && MatesOf(slots[..]) == MatesOf(old(slots[..]))
              && OuterOf(slots[..], 2 * n) == OuterOf(old(slots[..]), 2 * n)
              && Extends(old(forestList), forestList)
    {
      GrowOntoFacts(slots[..], u, v);
      GrowAlong(u, v);
    }

    /** Gives slot `x` a parent, a label and a root in the forest. */
    method SetLabel(x: int, parent: int, k: Label, r: int)
      requires Ready() && 0 <= x < 2 * n && -1 <= parent < 2 * n && 0 <= r < 2 * n
      modifies slots
      ensures Ready()
      ensures slots[..] == old(slots[..])[x := old(slots[x]).(forest := parent, kind := k, root := r)]
    {
      slots[x] := slots[x].(forest := parent, kind := k, root := r);
    }

    method MarkVisited(x: int)
      requires Ready() && 0 <= x < 2 * n
      modifies slots
      ensures Ready()
      ensures slots[..] == old(slots[..])[x := old(slots[x]).(visited := true)]
    {
      slots[x] := slots[x].(visited := true);
    }

    /**
     * Looks at the edge from vertex `u`, in an EVEN outer blossom, to `v`.
     * A blocked edge, or an ODD blossom at `v`, is passed over. An
     * unlabeled blossom at `v` grows the forest. An EVEN blossom at `v` in
     * another tree closes an augmenting path: the matching is augmented and
     * the forest reset. An EVEN blossom at `v` in the same tree, other than
     * `u`'s own, closes a blossom, which is contracted and queued at the
     * front. Returns whether the scan of the current blossom stops; when it
     * does not, neither the matching nor the nesting has changed.
     */
    method ExploreEdge(u: int, v: int) returns (stop: bool)
      requires Ready() && 0 <= u < n && G.Adjacent(u, v)
      modifies this`free, this`forestList, slots
      ensures Ready()
      ensures !stop ==> && MatesOf(slots[..]) == MatesOf(old(slots[..]))
                        && OuterOf(slots[..], 2 * n) == OuterOf(old(slots[..]), 2 * n)
                        && free == old(free) && Extends(old(forestList), forestList)
    {
      G.NeighboursAreVertices(u, v);
      stop := false;
      if IsEdgeBlocked(u, v) {
        return;
      }
      var ou, ov := slots[u].outer, slots[v].outer;
      if slots[ov].kind == Odd {
        return;
      }
      if slots[ov].kind != Even {
        if slots[ov].mate != -1 {
          GrowKeeping(u, v);
        }
      } else {
        var closed, _, _, _ := CloseEven(u, v);
        stop := closed;
      }
    }

    /**
     * The edge from `u` to `v` joins two EVEN outer blossoms. In different
     * trees: augments along the path through it and resets the forest. In
     * the same tree and different blossoms: contracts the blossom it closes
     * and queues that at the front, marked visited. Otherwise nothing
     * happens; `stop` says something did. `flipped` and `pool` are the slots
     * and pool right after an augmentation, `made` the slots right after a
     * contraction.
     */
    method CloseEven(u: int, v: int) returns (stop: bool, ghost flipped: seq<Slot>, ghost pool: seq<int>, ghost made: seq<Slot>)
      requires Ready() && 0 <= u < n && 0 <= v < n
      modifies this`free, this`forestList, slots
      ensures Ready()
      ensures stop <==> old(|| slots[slots[v].outer].root != slots[slots[u].outer].root
                            || (slots[u].outer != slots[v].outer && free != []))
      ensures !stop ==> slots[..] == old(slots[..]) && free == old(free) && forestList == old(forestList)
      ensures old(slots[slots[v].outer].root != slots[slots[u].outer].root) ==>
        && Expands(old(slots[..]), old(free), flipped, pool, false)
        && Dismantles(Plain(Unhook(flipped, 2 * n)), pool, Plain(slots[..]), free)
        && FreshForest(slots[..], forestList, n)
      ensures old(slots[slots[v].outer].root == slots[slots[u].outer].root && slots[u].outer != slots[v].outer && free != []) ==>
        && free == old(free[..|free| - 1])
        && forestList == [old(free[|free| - 1])] + old(forestList)
        && BlossomMade(old(slots[..]), made, old(free[|free| - 1]), u, v)
        && slots[..] == made[old(free[|free| - 1]) := made[old(free[|free| - 1])].(visited := true)]
    {
      stop, flipped, pool, made := false, [], [], [];
      var ou, ov := slots[u].outer, slots[v].outer;
      if slots[ov].root != slots[ou].root {
        flipped, pool := AugmentAndReset(u, v);
        stop := true;
      } else if ou != ov && free != [] {
        var _, m := ContractAndQueue(u, v);
        made := m;
        stop := true;
      }
    }

    /**
     * Augments along the path through the edge `u`-`v` (giving the slots
     * `flipped` and pool `pool`), then resets the forest.
     */
    method AugmentAndReset(u: int, v: int) returns (ghost flipped: seq<Slot>, ghost pool: seq<int>)
      requires Ready() && 0 <= u < n && 0 <= v < n
      modifies this`free, this`forestList, slots
      ensures Ready()
      ensures Expands(old(slots[..]), old(free), flipped, pool, false)
      ensures forall x :: 0 <= x < 2 * n ==> slots[x].forest == -1 && slots[x].root == x
      ensures Dismantles(Plain(Unhook(flipped, 2 * n)), pool, Plain(slots[..]), free)
      ensures FreshForest(slots[..], forestList, n)
    {
      Augment(u, v);
      flipped, pool := slots[..], free;
      Reset();
    }

    /**
     * Contracts the blossom the edge `u`-`v` closes into `b`, taken from the
     * top of the pool (giving the slots `made`), then queues `b` at the front
     * and marks it visited.
     */
    method ContractAndQueue(u: int, v: int) returns (b: int, ghost made: seq<Slot>)
      requires Ready() && 0 <= u < n && 0 <= v < n && free != []
      modifies this`free, this`forestList, slots
      ensures Ready()
      ensures b == old(free[|free| - 1]) && free == old(free[..|free| - 1]) && n <= b < 2 * n
      ensures forestList == [b] + old(forestList)
      ensures Linked(OuterOf(old(slots[..]), 2 * n), ForestOf(old(slots[..])))
      ensures BlossomMade(old(slots[..]), made, b, u, v)
      ensures slots[..] == made[b := made[b].(visited := true)]
    {
      b := Blossom(u, v);
      made := slots[..];
      forestList := [b] + forestList;
      MarkVisited(b);
    }

    /** Scans the neighbours of vertex `u` in adjacency order until an edge stops the scan. */
    method ExploreVertex(u: int) returns (stop: bool)
      requires Ready() && 0 <= u < n
      modifies this`free, this`forestList, slots
      ensures Ready()
      ensures !stop ==> && MatesOf(slots[..]) == MatesOf(old(slots[..]))
                        && OuterOf(slots[..], 2 * n) == OuterOf(old(slots[..]), 2 * n)
                        && free == old(free) && Extends(old(forestList), forestList)
    {
      var adj := G.AdjList(u);
      stop := false;
      var j := 0;
      while j < |adj| && !stop
        invariant 0 <= j <= |adj|
        invariant Ready()
        invariant !stop ==> && MatesOf(slots[..]) == MatesOf(old(slots[..]))
                            && OuterOf(slots[..], 2 * n) == OuterOf(old(slots[..]), 2 * n)
                            && free == old(free) && Extends(old(forestList), forestList)
      {
        assert adj[j] in adj;
        ghost var q := forestList;
        stop := ExploreEdge(u, adj[j]);
        if !stop {
          ExtendsTrans(old(forestList), q, forestList);
        }
        j := j + 1;
      }
    }

    /**
     * One round of the growth: takes the first queued vertex, and scans the
     * vertices deep in its outer blossom (as they were when the round began)
     * until one of them stops the scan. When none does, the matching, the
     * nesting and the pool are as before, and the rest of the queue has only
     * grown at its back.
     */
    method GrowStep() returns (stop: bool)
      requires Ready() && forestList != []
      modifies this`free, this`forestList, slots
      ensures Ready()
      ensures !stop ==> && MatesOf(slots[..]) == MatesOf(old(slots[..]))
                        && OuterOf(slots[..], 2 * n) == OuterOf(old(slots[..]), 2 * n)
                        && free == old(free) && Extends(old(forestList[1..]), forestList)
    {
      var w := slots[forestList[0]].outer;
      forestList := forestList[1..];
      var d := slots[w].deep;
      stop := false;
      var k := 0;
      while k < |d| && !stop
        invariant 0 <= k <= |d|
        invariant Ready()
        invariant forall j :: 0 <= j < |d| ==> 0 <= d[j] < n
        invariant !stop ==> && MatesOf(slots[..]) == MatesOf(old(slots[..]))
                            && OuterOf(slots[..], 2 * n) == OuterOf(old(slots[..]), 2 * n)
                            && free == old(free) && Extends(old(forestList[1..]), forestList)
      {
        ghost var q := forestList;
        stop := ExploreVertex(d[k]);
        if !stop {
          ExtendsTrans(old(forestList[1..]), q, forestList);
        }
        k := k + 1;
      }
    }

    /** `Reset`, then the rounds of `Grow`. */
    method ResetAndGrow(fuel: nat) returns (done: bool)
      requires Ready()
      modifies this`free, this`forestList, slots
      ensures Ready()
      ensures done <==> forestList == []
    {
      Reset();
      done := GrowRounds(fuel);
    }

    /** The loop of `Grow`: rounds while vertices are queued and `fuel` lasts; `done` says the queue was drained. */
    method GrowRounds(fuel: nat) returns (done: bool)
      requires Ready()
      modifies this`free, this`forestList, slots
      ensures Ready()
      ensures done <==> forestList == []
    {
      var left := fuel;
      while forestList != [] && left > 0
        invariant Ready()
        decreases left
      {
        var _ := GrowStep();
        left := left - 1;
      }
      done := forestList == [];
    }

    /**
     * Grows a Hungarian forest: resets it, then runs rounds while vertices
     * are queued and `fuel` lasts, and finally records in `perfect` whether
     * the outer blossom of every vertex is matched. `done` says the queue was
     * drained.
     */
    method Grow(fuel: nat) returns (done: bool)
      requires Ready()
      modifies this`free, this`forestList, this`perfect, slots
      ensures Ready()
      ensures done <==> forestList == []
      ensures perfect <==> forall i :: 0 <= i < n ==> slots[slots[i].outer].mate != -1
    {
      done := ResetAndGrow(fuel);
      CheckPerfect();
    }

    /***** Solving *****/

    /**
     * The maximum-cardinality matching: clears the state, grows one forest
     * and reads the matched edges off. Fails only when `fuel` runs out.
     * `grown` and `pool` are the slots and the pool after the growth, and
     * `states` and `pools` trace the expansion that precedes the reading.
     */
    method SolveMaximumMatching(fuel: nat) returns (r: Result<seq<int>>, ghost grown: seq<Slot>, ghost pool: seq<int>,
                                                    ghost states: seq<seq<Slot>>, ghost pools: seq<seq<int>>)
      requires Valid()
      modifies this`free, this`forestList, this`perfect, slots, slack
      ensures Ready()
      ensures |grown| == 2 * n && (perfect <==> OutersMatched(grown, n))
      ensures r.Failure? ==> r.error == OutOfSteps
      ensures r.Success? ==> && MatchedSoFar(G, slack[..], n, grown, pool, states, pools, 2 * n)
                             && states[2 * n] == slots[..]
                             && r.value == SelectedUpTo(G, MatesOf(slots[..]), m)
    {
      Clear();
      var done := Grow(fuel);
      grown, pool := slots[..], free;
      states, pools := [], [];
      if !done {
        return Failure(OutOfSteps), grown, pool, states, pools;
      }
      var ids;
      ids, states, pools := RetrieveMatching();
      return Success(ids), grown, pool, states, pools;
    }

    /** The source's `slack = cost`. */
    method LoadCosts(cost: seq<real>)
      requires Shape() && |cost| == m
      modifies slack
      ensures slack[..] == cost
    {
      for i := 0 to m
        invariant forall j :: 0 <= j < i ==> slack[j] == cost[j]
      {
        slack[i] := cost[i];
      }
    }

    /**
     * One round of the primal-dual loop: the greedy warm start, a forest
     * growth, a dual update and a reset. `done` says the growth drained its
     * queue.
     */
    method PrimalDualRound(fuel: nat) returns (done: bool, ghost order: seq<int>, ghost warm: seq<seq<Slot>>, ghost grown: seq<Slot>)
      requires Ready()
      modifies this`free, this`forestList, this`perfect, slots, slack
      ensures Ready()
      ensures Drawn(order, [], Degrees(G, old(slack[..]))) && |order| == n
      ensures GreedySoFar(G, old(slack[..]), Degrees(G, old(slack[..])), old(slots[..]), order, warm)
      ensures forall u :: 0 <= u < n ==> Settled(G, old(slack[..]), warm[|order|], u)
      ensures |grown| == 2 * n && (perfect <==> OutersMatched(grown, n))
      ensures done ==> ShiftedReset(G, n, grown, old(slack[..]), slots[..], slack[..], forestList)
      ensures !done ==> slack[..] == old(slack[..])
    {
      order, warm := Heuristic();
      done, grown := GrowAndShift(fuel);
    }

    /** The growth, dual update and reset of `PrimalDualRound`. */
    method GrowAndShift(fuel: nat) returns (done: bool, ghost grown: seq<Slot>)
      requires Ready()
      modifies this`free, this`forestList, this`perfect, slots, slack
      ensures Ready()
      ensures |grown| == 2 * n && (perfect <==> OutersMatched(grown, n))
      ensures done ==> ShiftedReset(G, n, grown, old(slack[..]), slots[..], slack[..], forestList)
      ensures !done ==> slack[..] == old(slack[..])
    {
      done := Grow(fuel);
      grown := slots[..];
      if done {
        ShiftAndReset();
      }
    }

    /**
     * The dual update followed by a reset: slacks and duals move by the step
     * of the dual update, every blossom slot's block flag agrees with its
     * dual, and the forest is freshly reset.
     */
    method ShiftAndReset()
      requires Ready()
      modifies this`free, this`forestList, slots, slack
      ensures Ready()
      ensures ShiftedReset(G, n, old(slots[..]), old(slack[..]), slots[..], slack[..], forestList)
    {
      var e := UpdateDualCosts();
      ghost var s1, f1 := slots[..], free;
      Reset();
      ShiftKept(G, n, old(slots[..]), old(slack[..]), s1, f1, slots[..], free, slack[..], forestList);
    }

    /**
     * The minimum-cost perfect matching for edge costs `cost`. Fails with
     * `NoPerfectMatching` when the maximum matching is not perfect. Otherwise
     * clears the state, loads the costs as slacks, shifts them to be
     * non-negative, and runs rounds until the matching is perfect; it
     * returns the matched edges, in ascending order of index, with the sum
     * of their costs. Fails with `OutOfSteps` when `fuel` runs out.
     */
    method SolveMinimumCostPerfectMatching(cost: seq<real>, fuel: nat) returns (r: Result<(seq<int>, real)>, ghost grown: seq<Slot>)
      requires Valid() && |cost| == m
      modifies this`free, this`forestList, this`perfect, slots, slack
      ensures Ready()
      ensures |grown| == 2 * n
      ensures r.Failure? ==> r.error == NoPerfectMatching || r.error == OutOfSteps
      ensures r.Failure? && r.error == NoPerfectMatching ==> !perfect && !OutersMatched(grown, n)
      ensures r.Success? ==> perfect && OutersMatched(grown, n)
      ensures r.Success? ==> && r.value.0 == SelectedUpTo(G, MatesOf(slots[..]), m)
                             && r.value.1 == Total(r.value.0, cost)
    {
      var mm, g0, _, _, _ := SolveMaximumMatching(fuel);
      grown := g0;
      if mm.Failure? {
        return Failure(OutOfSteps), grown;
      }
      if !perfect {
        return Failure(NoPerfectMatching), grown;
      }
      r, grown := CostRounds(cost, fuel);
    }

    /**
     * The primal-dual phase of `SolveMinimumCostPerfectMatching`: clears the
     * state, loads the costs as slacks, shifts them to be non-negative, and
     * runs rounds until the matching is perfect, then returns the matched
     * edges with the sum of their costs. `grown` is the slots right after the
     * growth of the last round.
     */
    method CostRounds(cost: seq<real>, fuel: nat) returns (r: Result<(seq<int>, real)>, ghost grown: seq<Slot>)
      requires Valid() && |cost| == m
      modifies this`free, this`forestList, this`perfect, slots, slack
      ensures Ready()
      ensures |grown| == 2 * n
      ensures r.Failure? ==> r.error == OutOfSteps
      ensures r.Success? ==> perfect && OutersMatched(grown, n)
      ensures r.Success? ==> && r.value.0 == SelectedUpTo(G, MatesOf(slots[..]), m)
                             && r.value.1 == Total(r.value.0, cost)
    {
      grown := slots[..];
      Clear();
      LoadCosts(cost);
      PositiveCosts();
      perfect := false;
      var left := fuel;
      while !perfect && left > 0
        invariant Ready()
        invariant |grown| == 2 * n && (perfect ==> OutersMatched(grown, n))
        decreases left
      {
        var done, _, _, g := PrimalDualRound(fuel);
        grown := g;
        if !done {
          return Failure(OutOfSteps), grown;
        }
        left := left - 1;
      }
      if !perfect {
        return Failure(OutOfSteps), grown;
      }
      var ids, _, _ := RetrieveMatching();
      var obj := TotalCost(ids, cost);
      return Success((ids, obj)), grown;
    }
  }
}

/**
 * Walks up the alternating forest on plain values: `outer[y]` is the
 * outermost blossom containing slot `y`, `forest[y]` its parent (a vertex) or
 * -1 at a root. Climbing from a blossom goes to the outer blossom of its
 * parent.
 */
module Forest {

  /** Every slot names a slot as its outer blossom, and a slot or -1 as its parent. */
  predicate Linked(outer: seq<int>, forest: seq<int>) {
    |outer| == |forest| &&
    forall y :: 0 <= y < |outer| ==> 0 <= outer[y] < |outer| && -1 <= forest[y] < |outer|
  }

  /**
   * The blossoms met climbing from blossom `y`: `y` itself, then the outer
   * blossom of its parent, and so on up to a root, stopping after `fuel`
   * climbs.
   */
  function Chain(outer: seq<int>, forest: seq<int>, y: int, fuel: nat): (r: seq<int>)
    requires Linked(outer, forest) && 0 <= y < |outer|
    ensures 1 <= |r| <= fuel + 1 && r[0] == y
    ensures forall k :: 0 <= k < |r| ==> 0 <= r[k] < |outer|
    decreases fuel
  {
    if fuel == 0 || forest[y] == -1 then [y]
    else [y] + Chain(outer, forest, outer[forest[y]], fuel - 1)
  }

  /** A chain ends at a root or after `fuel` climbs. */
  lemma {:induction false} ChainEnd(outer: seq<int>, forest: seq<int>, y: int, fuel: nat)
    requires Linked(outer, forest) && 0 <= y < |outer|
    ensures var r := Chain(outer, forest, y, fuel); forest[r[|r| - 1]] == -1 || |r| == fuel + 1
    decreases fuel
  {
    if fuel > 0 && forest[y] != -1 {
      ChainEnd(outer, forest, outer[forest[y]], fuel - 1);
    }
  }

  /** The blossom after position `k` of a chain is the outer blossom of the parent of the one at `k`. */
  lemma {:induction false} ChainNext(outer: seq<int>, forest: seq<int>, y: int, fuel: nat, k: nat)
    requires Linked(outer, forest) && 0 <= y < |outer|
    requires k + 1 < |Chain(outer, forest, y, fuel)|
    ensures var r := Chain(outer, forest, y, fuel); forest[r[k]] != -1 && r[k + 1] == outer[forest[r[k]]]
    decreases fuel
  {
    if k > 0 {
      ChainNext(outer, forest, outer[forest[y]], fuel - 1, k - 1);
    }
  }

  /** The position of the first member of `c` that `marks` holds; the last position when there is none. */
  function FirstMarked(c: seq<int>, marks: seq<bool>): (k: nat)
    requires c != [] && forall j :: 0 <= j < |c| ==> 0 <= c[j] < |marks|
    ensures k < |c|
    ensures forall j :: 0 <= j < k ==> !marks[c[j]]
    ensures marks[c[k]] || k == |c| - 1
  {
    if marks[c[0]] || |c| == 1 then 0 else 1 + FirstMarked(c[1..], marks)
  }

  /** Skipping a prefix with no marked member moves the first marked position by its length. */
  lemma {:induction false} FirstMarkedAfter(a: seq<int>, b: seq<int>, marks: seq<bool>)
    requires forall j :: 0 <= j < |a| ==> 0 <= a[j] < |marks| && !marks[a[j]]
    requires b != [] && forall j :: 0 <= j < |b| ==> 0 <= b[j] < |marks|
    ensures FirstMarked(a + b, marks) == |a| + FirstMarked(b, marks)
  {
    if a != [] {
      var ab := a + b;
      assert ab[0] == a[0] && |ab| > 1;
      assert ab[1..] == a[1..] + b;
      FirstMarkedAfter(a[1..], b, marks);
      assert FirstMarked(ab, marks) == 1 + FirstMarked(ab[1..], marks);
      assert |a| == 1 + |a[1..]|;
    } else {
      assert a + b == b;
    }
  }

  /** The prefix of `c` up to and including the first `x`; all of `c` when `x` is absent. */
  function UpTo(c: seq<int>, x: int): seq<int> {
    if c == [] then []
    else if c[0] == x then [x]
    else [c[0]] + UpTo(c[1..], x)
  }

  /** The prefix of `c` before the first `x`; all of `c` when `x` is absent. */
  function Before(c: seq<int>, x: int): seq<int> {
    if c == [] then []
    else if c[0] == x then []
    else [c[0]] + Before(c[1..], x)
  }

  /** The walk to `x` is the walk before `x` followed by `x` itself, when `x` occurs. */
  lemma {:induction false} UpToIsBefore(c: seq<int>, x: int)
    ensures x in c ==> UpTo(c, x) == Before(c, x) + [x]
    ensures x !in c ==> UpTo(c, x) == Before(c, x) == c
  {
    if c != [] {
      UpToIsBefore(c[1..], x);
      assert c == [c[0]] + c[1..];
    }
  }

  /** The walk before `x` is a prefix of `c` without `x`, stopping at `x` when it occurs. */
  lemma {:induction false} BeforeIsPrefix(c: seq<int>, x: int)
    ensures var r := Before(c, x);
      |r| <= |c| && r == c[..|r|] && x !in r && (x in c ==> |r| < |c| && c[|r|] == x)
  {
    if c != [] && c[0] != x {
      BeforeIsPrefix(c[1..], x);
      assert c == [c[0]] + c[1..];
    }
  }

  /** A walk whose prefix `a` avoids `x` keeps `a` in front of what follows it, up to `x`. */
  lemma {:induction false} UpToAfter(a: seq<int>, b: seq<int>, x: int)
    requires x !in a
    ensures UpTo(a + b, x) == a + UpTo(b, x)
  {
    if a != [] {
      var ab := a + b;
      assert ab != [] && ab[0] == a[0] && ab[0] != x;
      assert ab[1..] == a[1..] + b;
      UpToAfter(a[1..], b, x);
      calc {
        UpTo(ab, x);
        [a[0]] + UpTo(a[1..] + b, x);
        [a[0]] + (a[1..] + UpTo(b, x));
        { assert a == [a[0]] + a[1..]; }
        a + UpTo(b, x);
      }
    } else {
      assert a + b == b;
    }
  }

  /** A walk whose prefix `a` avoids `x` keeps `a` in front of what follows it, before `x`. */
  lemma {:induction false} BeforeAfter(a: seq<int>, b: seq<int>, x: int)
    requires x !in a
    ensures Before(a + b, x) == a + Before(b, x)
  {
    if a != [] {
      var ab := a + b;
      assert ab != [] && ab[0] == a[0] && ab[0] != x;
      assert ab[1..] == a[1..] + b;
      BeforeAfter(a[1..], b, x);
      calc {
        Before(ab, x);
        [a[0]] + Before(a[1..] + b, x);
        [a[0]] + (a[1..] + Before(b, x));
        { assert a == [a[0]] + a[1..]; }
        a + Before(b, x);
      }
    } else {
      assert a + b == b;
    }
  }

  /** `c` backwards. */
  function Reverse(c: seq<int>): (r: seq<int>)
    ensures |r| == |c|
  {
    if c == [] then [] else [c[|c| - 1]] + Reverse(c[..|c| - 1])
  }

  /** Reversing puts the last member first. */
  lemma ReverseSnoc(c: seq<int>, x: int)
    ensures Reverse(c + [x]) == [x] + Reverse(c)
  {
    assert (c + [x])[..|c|] == c;
  }

  /** Reversing reads `c` from the end. */
  lemma {:induction false} ReverseIndex(c: seq<int>)
    ensures forall j :: 0 <= j < |c| ==> Reverse(c)[j] == c[|c| - 1 - j]
  {
    if c != [] {
      ReverseIndex(c[..|c| - 1]);
    }
  }

  /** The walk up to `x` takes its members from `c`. */
  lemma UpToWithin(c: seq<int>, x: int)
    ensures forall y :: y in UpTo(c, x) ==> y in c
  {
    UpToIsBefore(c, x);
    BeforeIsPrefix(c, x);
  }

  /** Reversing keeps the members. */
  lemma ReverseWithin(c: seq<int>)
    ensures forall y :: y in Reverse(c) ==> y in c
  {
    ReverseIndex(c);
    forall y | y in Reverse(c)
      ensures y in c
    {
      var j :| 0 <= j < |c| && Reverse(c)[j] == y;
      assert c[|c| - 1 - j] == y;
    }
  }

  /** Membership in `c`, as a vector of flags over `size` slots. */
  function Marks(c: seq<int>, size: nat): (r: seq<bool>)
    ensures |r| == size && forall y :: 0 <= y < size ==> (r[y] <==> y in c)
  {
    seq(size, y requires 0 <= y < size => y in c)
  }

  /**
   * The tip of the blossom closed by an edge between the trees climbing from
   * blossoms `a` and `b`: the first blossom on `b`'s chain that is also on
   * `a`'s chain (the last one on `b`'s chain when they never meet).
   */
  function Tip(outer: seq<int>, forest: seq<int>, a: int, b: int, fuel: nat): (t: int)
    requires Linked(outer, forest) && 0 <= a < |outer| && 0 <= b < |outer|
    ensures 0 <= t < |outer|
  {
    var cb := Chain(outer, forest, b, fuel);
    cb[FirstMarked(cb, Marks(Chain(outer, forest, a, fuel), |outer|))]
  }

  /**
   * The odd circuit of that blossom, tip first: down `a`'s chain from the
   * tip to `a`, then up `b`'s chain from `b` to just below the tip.
   */
  function Circuit(outer: seq<int>, forest: seq<int>, a: int, b: int, fuel: nat): (r: seq<int>)
    requires Linked(outer, forest) && 0 <= a < |outer| && 0 <= b < |outer|
    ensures forall j :: 0 <= j < |r| ==> 0 <= r[j] < |outer|
  {
    var t, ca, cb := Tip(outer, forest, a, b, fuel), Chain(outer, forest, a, fuel), Chain(outer, forest, b, fuel);
    UpToWithin(ca, t);
    ReverseWithin(UpTo(ca, t));
    BeforeIsPrefix(cb, t);
    var r := Reverse(UpTo(ca, t)) + Before(cb, t);
    assert forall j :: 0 <= j < |r| ==> r[j] in r;
    r
  }

  /**
   * The tip is the lowest common blossom of the two chains: it is on `b`'s
   * chain and no blossom before it there is on `a`'s chain; it is on `a`'s
   * chain too unless the chains never meet.
   */
  lemma TipIsLowestCommon(outer: seq<int>, forest: seq<int>, a: int, b: int, fuel: nat)
    requires Linked(outer, forest) && 0 <= a < |outer| && 0 <= b < |outer|
    ensures var ca, cb, t := Chain(outer, forest, a, fuel), Chain(outer, forest, b, fuel), Tip(outer, forest, a, b, fuel);
      && t in cb
      && (forall y :: y in Before(cb, t) ==> y !in ca)
  {
    var ca, cb, t := Chain(outer, forest, a, fuel), Chain(outer, forest, b, fuel), Tip(outer, forest, a, b, fuel);
    var marks := Marks(ca, |outer|);
    var k := FirstMarked(cb, marks);
    BeforeIsPrefix(cb, t);
    var r := Before(cb, t);
    assert |r| <= k;
    forall y | y in r
      ensures y !in ca
    {
      var i :| 0 <= i < |r| && r[i] == y;
      assert cb[i] == y;
    }
  }

  /** When the tip is not on `a`'s chain, the two chains never meet. */
  lemma ChainsApart(outer: seq<int>, forest: seq<int>, a: int, b: int, fuel: nat)
    requires Linked(outer, forest) && 0 <= a < |outer| && 0 <= b < |outer|
    ensures var ca, cb := Chain(outer, forest, a, fuel), Chain(outer, forest, b, fuel);
      Tip(outer, forest, a, b, fuel) !in ca ==> forall y :: y in cb ==> y !in ca
  {
    var ca, cb, t := Chain(outer, forest, a, fuel), Chain(outer, forest, b, fuel), Tip(outer, forest, a, b, fuel);
    var marks := Marks(ca, |outer|);
    var k := FirstMarked(cb, marks);
    if t !in ca {
      assert !marks[cb[k]] && k == |cb| - 1;
      forall y | y in cb
        ensures y !in ca
      {
        var i :| 0 <= i < |cb| && cb[i] == y;
        assert i <= k && !marks[cb[i]];
      }
    }
  }

  /**
   * When the chains meet, the circuit starts at the tip, runs down `a`'s
   * chain to `a`, then continues from `b` up `b`'s chain to below the tip.
   */
  lemma CircuitFromTip(outer: seq<int>, forest: seq<int>, a: int, b: int, fuel: nat)
    requires Linked(outer, forest) && 0 <= a < |outer| && 0 <= b < |outer|
    requires Tip(outer, forest, a, b, fuel) in Chain(outer, forest, a, fuel)
    ensures var ca, cb, t := Chain(outer, forest, a, fuel), Chain(outer, forest, b, fuel), Tip(outer, forest, a, b, fuel);
      && Circuit(outer, forest, a, b, fuel) == [t] + Reverse(Before(ca, t)) + Before(cb, t)
      && Circuit(outer, forest, a, b, fuel)[|Before(ca, t)|] == a
  {
    var ca, t := Chain(outer, forest, a, fuel), Tip(outer, forest, a, b, fuel);
    UpToIsBefore(ca, t);
    BeforeIsPrefix(ca, t);
    var r := Before(ca, t);
    ReverseSnoc(r, t);
    ReverseIndex(r);
    if r != [] {
      assert Reverse(r)[|r| - 1] == r[0] == ca[0] == a;
    }
  }

  /**
   * The source's `isInPath`: marks every outer blossom met climbing from
   * vertex `u` to the root of its tree (at most `|outer|` climbs).
   */
  method MarkPath(outer: seq<int>, forest: seq<int>, u: int) returns (inPath: seq<bool>)
    requires Linked(outer, forest) && 0 <= u < |outer|
    ensures inPath == Marks(Chain(outer, forest, outer[u], |outer|), |outer|)
  {
    var size := |outer|;
    ghost var whole := Chain(outer, forest, outer[u], size);
    ChainEnd(outer, forest, outer[u], size);
    inPath := seq(size, _ => false);
    var x, steps := u, 0;
    while x != -1
      invariant 0 <= steps <= size && -1 <= x < size
      invariant x != -1 ==> steps < |whole| && whole[steps] == outer[x]
      invariant x == -1 ==> steps == |whole|
      invariant |inPath| == size && forall y :: 0 <= y < size ==> (inPath[y] <==> y in whole[..steps])
      decreases size - steps
    {
      var cur := outer[x];
      assert whole[..steps + 1] == whole[..steps] + [cur];
      inPath := inPath[cur := true];
      if steps == size {
        steps := steps + 1;
        break;
      }
      if steps + 1 < |whole| {
        ChainNext(outer, forest, outer[u], size, steps);
      }
      x := forest[cur];
      steps := steps + 1;
    }
    assert whole[..steps] == whole;
  }

  /**
   * Climbs from the outer blossom of vertex `v` to the first marked
   * blossom; the walk also stops at a root and after `|outer|` climbs.
   */
  method FindTip(outer: seq<int>, forest: seq<int>, inPath: seq<bool>, v: int) returns (tip: int)
    requires Linked(outer, forest) && 0 <= v < |outer| && |inPath| == |outer|
    ensures var cv := Chain(outer, forest, outer[v], |outer|); tip == cv[FirstMarked(cv, inPath)]
  {
    var size := |outer|;
    ghost var whole := Chain(outer, forest, outer[v], size);
    ChainEnd(outer, forest, outer[v], size);
    var cur, steps := outer[v], 0;
    while !inPath[cur] && forest[cur] != -1 && steps < size
      invariant 0 <= steps < |whole| && cur == whole[steps]
      invariant forall j :: 0 <= j < steps ==> !inPath[whole[j]]
      decreases size - steps
    {
      if steps + 1 < |whole| {
        ChainNext(outer, forest, outer[v], size, steps);
      }
      cur := outer[forest[cur]];
      steps := steps + 1;
    }
    if steps + 1 < |whole| {
      ChainNext(outer, forest, outer[v], size, steps);
    }
    var rest := whole[steps..];
    assert rest[0] == cur && (inPath[cur] || |rest| == 1);
    assert FirstMarked(rest, inPath) == 0;
    assert whole == whole[..steps] + rest;
    FirstMarkedAfter(whole[..steps], rest, inPath);
    tip := cur;
  }

  /** The walk up to `x` stops at index `k` when `x` first occurs there or `c` ends there. */
  lemma {:induction false} UpToAt(c: seq<int>, k: nat, x: int)
    requires k < |c| && (forall j :: 0 <= j < k ==> c[j] != x) && (c[k] == x || k == |c| - 1)
    ensures UpTo(c, x) == c[..k + 1]
    decreases k
  {
    if k > 0 {
      UpToAt(c[1..], k - 1, x);
      assert c[..k + 1] == [c[0]] + c[1..][..k];
    } else if c[0] != x {
      assert c[1..] == [];
    }
  }

  /** The walk before `x` stops at index `k` when `x` first occurs there or `c` ends there. */
  lemma {:induction false} BeforeAt(c: seq<int>, k: nat, x: int)
    requires k <= |c| && (forall j :: 0 <= j < k ==> c[j] != x) && (k == |c| || c[k] == x)
    ensures Before(c, x) == c[..k]
    decreases k
  {
    if k > 0 {
      BeforeAt(c[1..], k - 1, x);
      assert c[..k] == [c[0]] + c[1..][..k - 1];
    }
  }

  /** Reversing one more member of a prefix puts it first. */
  lemma ReverseGrow(c: seq<int>, k: nat)
    requires k + 1 < |c|
    ensures Reverse(c[..k + 2]) == [c[k + 1]] + Reverse(c[..k + 1])
  {
    assert c[..k + 2] == c[..k + 1] + [c[k + 1]];
    ReverseSnoc(c[..k + 1], c[k + 1]);
  }

  /** Appending the next member of `c` extends the copied prefix by one. */
  lemma AppendGrow(c0: seq<int>, c: seq<int>, k: nat)
    requires k < |c|
    ensures c0 + c[..k] + [c[k]] == c0 + c[..k + 1]
  {
    assert c[..k + 1] == c[..k] + [c[k]];
  }

  /**
   * The first half of the circuit: climbs from the outer blossom of `u` to
   * the tip, pushing each blossom at the front, so the list runs from the
   * tip down to `u`'s blossom.
   */
  method CircuitDown(outer: seq<int>, forest: seq<int>, u: int, tip: int) returns (c: seq<int>)
    requires Linked(outer, forest) && 0 <= u < |outer|
    ensures c == Reverse(UpTo(Chain(outer, forest, outer[u], |outer|), tip))
  {
    var size := |outer|;
    ghost var whole := Chain(outer, forest, outer[u], size);
    ChainEnd(outer, forest, outer[u], size);
    var cur, steps := outer[u], 0;
    c := [cur];
    assert whole[..1] == [cur];
    while cur != tip && forest[cur] != -1 && steps < size
      invariant 0 <= steps < |whole| && cur == whole[steps]
      invariant forall j :: 0 <= j < steps ==> whole[j] != tip
      invariant c == Reverse(whole[..steps + 1])
      decreases size - steps
    {
      ChainNext(outer, forest, outer[u], size, steps);
      ReverseGrow(whole, steps);
      cur := outer[forest[cur]];
      c := [cur] + c;
      steps := steps + 1;
    }
    if steps + 1 < |whole| {
      ChainNext(outer, forest, outer[u], size, steps);
    }
    UpToAt(whole, steps, tip);
  }

  /**
   * The second half of the circuit: appends the blossoms met climbing from
   * the outer blossom of `v`, stopping below the tip (and at a root, and
   * after `|outer|` climbs).
   */
  method CircuitUp(outer: seq<int>, forest: seq<int>, c0: seq<int>, v: int, tip: int) returns (c: seq<int>)
    requires Linked(outer, forest) && 0 <= v < |outer|
    ensures c == c0 + Before(Chain(outer, forest, outer[v], |outer|), tip)
  {
    var size := |outer|;
    ghost var whole := Chain(outer, forest, outer[v], size);
    ChainEnd(outer, forest, outer[v], size);
    var cur, steps := outer[v], 0;
    c := c0;
    while cur != tip
      invariant 0 <= steps < |whole| && cur == whole[steps]
      invariant forall j :: 0 <= j < steps ==> whole[j] != tip
      invariant c == c0 + whole[..steps]
      decreases size - steps
    {
      AppendGrow(c0, whole, steps);
      c := c + [cur];
      if forest[cur] == -1 || steps == size {
        if steps + 1 < |whole| {
          ChainNext(outer, forest, outer[v], size, steps);
        }
        BeforeAt(whole, steps + 1, tip);
        return;
      }
      ChainNext(outer, forest, outer[v], size, steps);
      cur := outer[forest[cur]];
      steps := steps + 1;
    }
    BeforeAt(whole, steps, tip);
  }
}

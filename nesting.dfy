/**
 * Value-level views of the blossom nesting: the `deep` list of a contracted
 * blossom, and the rotation of an odd circuit so that it starts at a chosen
 * child.
 */
module Nesting {

  /** Every member of `c` indexes `d`. */
  ghost predicate Indexes(c: seq<int>, d: seq<seq<int>>) {
    forall k :: 0 <= k < |c| ==> 0 <= c[k] < |d|
  }

  /** The concatenation of `d[s]` over the members `s` of `c`, in order. */
  function Flatten(c: seq<int>, d: seq<seq<int>>): (r: seq<int>)
    requires Indexes(c, d)
    ensures forall x :: x in r <==> exists k :: 0 <= k < |c| && x in d[c[k]]
  {
    if c == [] then []
    else
      var r := Flatten(c[..|c| - 1], d) + d[c[|c| - 1]];
      assert forall x :: x in r && x !in d[c[|c| - 1]] ==> exists k :: 0 <= k < |c| - 1 && x in d[c[k]] by {
        forall x | x in r && x !in d[c[|c| - 1]]
          ensures exists k :: 0 <= k < |c| - 1 && x in d[c[k]]
        {
          assert x in Flatten(c[..|c| - 1], d);
          var k :| 0 <= k < |c| - 1 && x in d[c[..|c| - 1][k]];
          assert c[..|c| - 1][k] == c[k];
        }
      }
      r
  }

  /** Flattening a prefix of one more member appends that member's list. */
  lemma FlattenSnoc(c: seq<int>, d: seq<seq<int>>, k: nat)
    requires Indexes(c, d) && k < |c|
    ensures Flatten(c[..k + 1], d) == Flatten(c[..k], d) + d[c[k]]
  {
    assert c[..k + 1][..k] == c[..k];
  }

  /** The first position in `c` whose `d` list holds `p`; `|c|` when there is none. */
  function FirstHolding(c: seq<int>, d: seq<seq<int>>, p: int): (k: nat)
    requires Indexes(c, d)
    ensures k <= |c|
    ensures forall j :: 0 <= j < k ==> p !in d[c[j]]
    ensures k < |c| ==> p in d[c[k]]
  {
    if c == [] then 0
    else if p in d[c[0]] then 0
    else 1 + FirstHolding(c[1..], d, p)
  }

  /** `c` turned left by `k` places: it starts with `c[k]` and keeps the cyclic order. */
  function Rotate(c: seq<int>, k: nat): (r: seq<int>)
    requires k <= |c|
  {
    c[k..] + c[..k]
  }

  /** A rotation is a permutation that starts at the chosen member. */
  lemma RotatePermutes(c: seq<int>, k: nat)
    requires k <= |c|
    ensures |Rotate(c, k)| == |c|
    ensures multiset(Rotate(c, k)) == multiset(c)
    ensures k < |c| ==> Rotate(c, k)[0] == c[k]
    ensures forall j :: 0 <= j < |c| ==>
      Rotate(c, k)[j] == if j + k < |c| then c[j + k] else c[j + k - |c|]
  {
    assert c == c[..k] + c[k..];
  }

  /** Turning left by one place, `k` times over, turns left by `k` places. */
  lemma RotateStep(c: seq<int>, k: nat)
    requires k < |c|
    ensures Rotate(c, k)[1..] + [Rotate(c, k)[0]] == Rotate(c, k + 1)
  {
    assert c[k..][1..] == c[k + 1..];
    assert c[..k + 1] == c[..k] + [c[k]];
  }

  /** A rotation keeps every member below a bound that the members of `c` keep. */
  lemma RotateBounded(c: seq<int>, k: nat, bound: int)
    requires k <= |c| && forall j :: 0 <= j < |c| ==> 0 <= c[j] < bound
    ensures forall j :: 0 <= j < |Rotate(c, k)| ==> 0 <= Rotate(c, k)[j] < bound
  {
    RotatePermutes(c, k);
  }

  /** Flattening reads only the lists of the members. */
  lemma {:induction false} FlattenAgree(c: seq<int>, d1: seq<seq<int>>, d2: seq<seq<int>>)
    requires Indexes(c, d1) && Indexes(c, d2)
    requires forall k :: 0 <= k < |c| ==> d1[c[k]] == d2[c[k]]
    ensures Flatten(c, d1) == Flatten(c, d2)
  {
    if c != [] {
      FlattenAgree(c[..|c| - 1], d1, d2);
    }
  }
}

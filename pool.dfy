/**
 * Discipline of the free pool of blossom slots. Slots `n..2n-1` name
 * blossoms; the pool is a stack of the slots not in use. Contraction pops a
 * slot and activates it; expansion and destruction deactivate a slot and push
 * it back.
 */
module FreePool {

  /**
   * Going from activity flags `a0` and pool `f0` to `a1` and `f1`:
   * the pool only grew at its back, no slot was activated, every slot that was
   * deactivated was pushed, and every slot pushed is now inactive.
   */
  ghost predicate Tracks(a0: seq<bool>, f0: seq<int>, a1: seq<bool>, f1: seq<int>) {
    && |a0| == |a1|
    && |f0| <= |f1|
    && f1[..|f0|] == f0
    && (forall x :: 0 <= x < |a1| && a1[x] ==> a0[x])
    && (forall x :: 0 <= x < |a0| && a0[x] && !a1[x] ==> x in f1[|f0|..])
    && (forall k :: |f0| <= k < |f1| ==> 0 <= f1[k] < |a1| && !a1[f1[k]])
  }

  /** Doing nothing keeps the discipline. */
  lemma TracksRefl(a: seq<bool>, f: seq<int>)
    ensures Tracks(a, f, a, f)
  {
  }

  /** Deactivating one slot and pushing it keeps the discipline. */
  lemma TracksRelease(a: seq<bool>, f: seq<int>, t: int)
    requires 0 <= t < |a|
    ensures Tracks(a, f, a[t := false], f + [t])
  {
    var f1 := f + [t];
    assert f1[|f|..] == [t];
  }

  /** Two steps that each keep the discipline compose into one that does. */
  lemma TracksTrans(a0: seq<bool>, f0: seq<int>, a1: seq<bool>, f1: seq<int>, a2: seq<bool>, f2: seq<int>)
    requires Tracks(a0, f0, a1, f1)
    requires Tracks(a1, f1, a2, f2)
    ensures Tracks(a0, f0, a2, f2)
  {
    assert f2[..|f0|] == f1[..|f0|] by {
      assert f2[..|f0|] == f2[..|f1|][..|f0|];
    }
    forall x | 0 <= x < |a0| && a0[x] && !a2[x]
      ensures x in f2[|f0|..]
    {
      if a1[x] {
        assert x in f2[|f1|..];
        var k :| |f1| <= k < |f2| && f2[k] == x;
        assert f2[|f0|..][k - |f0|] == x;
      } else {
        assert x in f1[|f0|..];
        var k :| |f0| <= k < |f1| && f1[k] == x;
        assert f2[..|f1|][k] == x;
        assert f2[|f0|..][k - |f0|] == x;
      }
    }
    forall k | |f0| <= k < |f2|
      ensures 0 <= f2[k] < |a2| && !a2[f2[k]]
    {
      if k < |f1| {
        assert f2[..|f1|][k] == f2[k];
      }
    }
  }
}

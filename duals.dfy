/**
 * The arithmetic of the dual update and of the initial cost shift, on plain
 * values. Slacks and duals are exact reals; the source's tolerant comparison
 * `GREATER(a, b)` is the exact `a > b` here.
 */
module Duals {

  /** Alternating-forest label of an outer blossom (the source's 0, 1, 2). */
  datatype Label = Unlabeled | Odd | Even

  datatype Option<T> = None | Some(value: T)

  /**
   * What the dual update sees of one edge: the labels of the outer blossoms of
   * its two endpoints, and whether those outer blossoms differ.
   */
  datatype EdgeView = EdgeView(lu: Label, lv: Label, apart: bool)

  /** Ends in the same outer blossom carry the same label. */
  predicate Coherent(w: EdgeView) {
    w.apart || w.lu == w.lv
  }

  /** The edges that bound the step through `e1`: one end EVEN, the other UNLABELED. */
  predicate EvenToFree(w: EdgeView) {
    (w.lu == Even && w.lv == Unlabeled) || (w.lv == Even && w.lu == Unlabeled)
  }

  /** The edges that bound the step through `e2`: both ends EVEN, in different outer blossoms. */
  predicate EvenToEven(w: EdgeView) {
    !EvenToFree(w) && w.apart && w.lu == Even && w.lv == Even
  }

  /**
   * `b` is the least slack over the edges of the class `inE1` selects
   * (EvenToFree when true, EvenToEven when false), and `None` exactly when the
   * class is empty.
   */
  ghost predicate IsLeastSlack(b: Option<real>, s: seq<real>, views: seq<EdgeView>, inE1: bool)
    requires |views| == |s|
  {
    && (b.None? <==> forall i :: 0 <= i < |s| ==> !InClass(views[i], inE1))
    && (b.Some? ==> exists i :: 0 <= i < |s| && InClass(views[i], inE1) && s[i] == b.value)
    && (b.Some? ==> forall i :: 0 <= i < |s| && InClass(views[i], inE1) ==> b.value <= s[i])
  }

  predicate InClass(w: EdgeView, inE1: bool) {
    if inE1 then EvenToFree(w) else EvenToEven(w)
  }

  /**
   * The scan `if (!init || GREATER(best, x[i])) { best = x[i]; init = true; }`
   * over the first `k` positions whose `sel` flag is set: the least selected
   * value, the first one on ties, or `None` when nothing is selected.
   */
  function Least(xs: seq<real>, sel: seq<bool>, k: nat): Option<real>
    requires k <= |xs| && k <= |sel|
  {
    if k == 0 then None
    else
      var r := Least(xs, sel, k - 1);
      if sel[k - 1] && (r.None? || r.value > xs[k - 1]) then Some(xs[k - 1]) else r
  }

  /** One more position of the scan. */
  lemma LeastNext(xs: seq<real>, sel: seq<bool>, k: nat)
    requires k < |xs| && k < |sel|
    ensures Least(xs, sel, k + 1) ==
      var r := Least(xs, sel, k);
      if sel[k] && (r.None? || r.value > xs[k]) then Some(xs[k]) else r
  {
  }

  /** `Least` is `None` exactly when nothing is selected, and otherwise a selected value below every selected one. */
  lemma {:induction false} LeastIsLeast(xs: seq<real>, sel: seq<bool>, k: nat)
    requires k <= |xs| && k <= |sel|
    ensures var b := Least(xs, sel, k);
      && (b.None? <==> forall i :: 0 <= i < k ==> !sel[i])
      && (b.Some? ==> exists i :: 0 <= i < k && sel[i] && xs[i] == b.value)
      && (b.Some? ==> forall i :: 0 <= i < k && sel[i] ==> b.value <= xs[i])
  {
    if k > 0 {
      LeastIsLeast(xs, sel, k - 1);
    }
  }

  /** Which edges belong to the class `inE1` selects. */
  function Classes(views: seq<EdgeView>, inE1: bool): (r: seq<bool>)
    ensures |r| == |views| && forall i :: 0 <= i < |views| ==> r[i] == InClass(views[i], inE1)
  {
    seq(|views|, i requires 0 <= i < |views| => InClass(views[i], inE1))
  }

  /** The scan over the edges of a class finds its least slack. */
  lemma LeastSlackFound(s: seq<real>, views: seq<EdgeView>, inE1: bool)
    requires |views| == |s|
    ensures IsLeastSlack(Least(s, Classes(views, inE1), |s|), s, views, inE1)
  {
    LeastIsLeast(s, Classes(views, inE1), |s|);
  }

  /**
   * The step of a dual update: `e1` if defined, else `e2`, else `e3`, else 0;
   * then lowered to `e2 / 2` and to `e3` where those are defined and smaller.
   */
  function Step(e1: Option<real>, e2: Option<real>, e3: Option<real>): (e: real)
    ensures e1.Some? ==> e <= e1.value
    ensures e2.Some? ==> e <= e2.value / 2.0
    ensures e3.Some? ==> e <= e3.value
  {
    var e0 := if e1.Some? then e1.value else if e2.Some? then e2.value else if e3.Some? then e3.value else 0.0;
    var e' := if e2.Some? && e0 > e2.value / 2.0 then e2.value / 2.0 else e0;
    if e3.Some? && e' > e3.value then e3.value else e'
  }

  /**
   * When `e2` is not negative, the step is the least of the defined bounds
   * `e1`, `e2 / 2` and `e3`: it is one of them, or 0 when none is defined.
   */
  lemma StepIsLeastBound(e1: Option<real>, e2: Option<real>, e3: Option<real>)
    requires e2.Some? ==> e2.value >= 0.0
    ensures var e := Step(e1, e2, e3);
      || (e1.Some? && e == e1.value)
      || (e2.Some? && e == e2.value / 2.0)
      || (e3.Some? && e == e3.value)
      || (e1.None? && e2.None? && e3.None? && e == 0.0)
  {
  }

  /** The change a dual step of size `e` makes to the slack of an edge. */
  function SlackChange(w: EdgeView, e: real): real {
    if !w.apart then 0.0
    else if w.lu == Even && w.lv == Even then -2.0 * e
    else if w.lu == Odd && w.lv == Odd then 2.0 * e
    else if (w.lv == Unlabeled && w.lu == Even) || (w.lu == Unlabeled && w.lv == Even) then -e
    else if (w.lv == Unlabeled && w.lu == Odd) || (w.lu == Unlabeled && w.lv == Odd) then e
    else 0.0
  }

  /** The slacks after a dual step of size `e`. */
  function Shifted(s: seq<real>, views: seq<EdgeView>, e: real): (r: seq<real>)
    requires |views| == |s|
    ensures |r| == |s|
  {
    seq(|s|, i requires 0 <= i < |s| => s[i] + SlackChange(views[i], e))
  }

  /**
   * Dual feasibility survives a dual step: if every slack is non-negative
   * before, `e1` and `e2` are the least slacks of their classes and `e3` is not
   * negative, every slack is non-negative after. EVEN-UNLABELED slacks drop by
   * at most `e1`, EVEN-EVEN ones by `2 e <= e2`, and ODD ones only grow.
   */
  lemma StepKeepsSlacksNonNegative(s: seq<real>, views: seq<EdgeView>, e1: Option<real>, e2: Option<real>, e3: Option<real>)
    requires |views| == |s|
    requires forall i :: 0 <= i < |s| ==> s[i] >= 0.0
    requires IsLeastSlack(e1, s, views, true) && IsLeastSlack(e2, s, views, false)
    requires e3.Some? ==> e3.value >= 0.0
    ensures forall i :: 0 <= i < |s| ==> Shifted(s, views, Step(e1, e2, e3))[i] >= 0.0
  {
    var e := Step(e1, e2, e3);
    StepNotNegative(s, views, e1, e2, e3);
    forall i | 0 <= i < |s|
      ensures s[i] + SlackChange(views[i], e) >= 0.0
    {
      var w := views[i];
      if w.apart && w.lu == Even && w.lv == Even {
        assert InClass(w, false);
      } else if w.apart && EvenToFree(w) {
        assert InClass(w, true);
      }
    }
  }

  /** Under the same conditions the step is not negative. */
  lemma StepNotNegative(s: seq<real>, views: seq<EdgeView>, e1: Option<real>, e2: Option<real>, e3: Option<real>)
    requires |views| == |s|
    requires forall i :: 0 <= i < |s| ==> s[i] >= 0.0
    requires IsLeastSlack(e1, s, views, true) && IsLeastSlack(e2, s, views, false)
    requires e3.Some? ==> e3.value >= 0.0
    ensures Step(e1, e2, e3) >= 0.0
  {
    if e2.Some? {
      var i :| 0 <= i < |s| && InClass(views[i], false) && s[i] == e2.value;
    }
    if e1.Some? {
      var i :| 0 <= i < |s| && InClass(views[i], true) && s[i] == e1.value;
    }
    StepIsLeastBound(e1, e2, e3);
  }

  /**
   * The step makes progress: unless it is set by `e3` (an ODD blossom's dual
   * reaching zero), some EVEN-UNLABELED or EVEN-EVEN edge becomes tight.
   */
  lemma StepTightensAnEdge(s: seq<real>, views: seq<EdgeView>, e1: Option<real>, e2: Option<real>, e3: Option<real>)
    requires |views| == |s|
    requires forall i :: 0 <= i < |s| ==> s[i] >= 0.0
    requires forall i :: 0 <= i < |s| ==> Coherent(views[i])
    requires IsLeastSlack(e1, s, views, true) && IsLeastSlack(e2, s, views, false)
    requires e1.Some? || e2.Some?
    ensures || (e3.Some? && Step(e1, e2, e3) == e3.value)
            || exists i :: 0 <= i < |s| && (EvenToFree(views[i]) || EvenToEven(views[i]))
                 && Shifted(s, views, Step(e1, e2, e3))[i] == 0.0
  {
    var e := Step(e1, e2, e3);
    if e2.Some? {
      var i :| 0 <= i < |s| && InClass(views[i], false) && s[i] == e2.value;
    }
    StepIsLeastBound(e1, e2, e3);
    if e3.Some? && e == e3.value {
    } else if e1.Some? && e == e1.value {
      var i :| 0 <= i < |s| && InClass(views[i], true) && s[i] == e1.value;
      assert Shifted(s, views, e)[i] == 0.0;
    } else {
      var i :| 0 <= i < |s| && InClass(views[i], false) && s[i] == e2.value;
      assert Shifted(s, views, e)[i] == 0.0;
    }
  }

  /** `min(0, min s)`: the constant the initial cost shift subtracts from every slack. */
  function LowestOrZero(s: seq<real>): (r: real)
    ensures r <= 0.0
    ensures forall i :: 0 <= i < |s| ==> r <= s[i]
    ensures r == 0.0 || exists i :: 0 <= i < |s| && s[i] == r
  {
    if s == [] then 0.0
    else
      var r' := LowestOrZero(s[..|s| - 1]);
      assert forall i :: 0 <= i < |s| - 1 ==> s[..|s| - 1][i] == s[i];
      if r' - s[|s| - 1] > 0.0 then s[|s| - 1] else r'
  }

  /** Every slack lowered by `c`. */
  function Lowered(s: seq<real>, c: real): (r: seq<real>)
    ensures |r| == |s| && forall i :: 0 <= i < |s| ==> r[i] == s[i] - c
  {
    seq(|s|, i requires 0 <= i < |s| => s[i] - c)
  }

  /**
   * Subtracting `LowestOrZero(s)` from every slack makes all of them
   * non-negative, leaves every difference between two slacks unchanged, and
   * moves nothing when no slack was negative.
   */
  lemma ShiftMakesNonNegative(s: seq<real>)
    ensures forall i :: 0 <= i < |s| ==> s[i] - LowestOrZero(s) >= 0.0
    ensures forall i, j :: 0 <= i < |s| && 0 <= j < |s| ==>
      (s[i] - LowestOrZero(s)) - (s[j] - LowestOrZero(s)) == s[i] - s[j]
    ensures (forall i :: 0 <= i < |s| ==> s[i] >= 0.0) ==> LowestOrZero(s) == 0.0
    ensures (exists i :: 0 <= i < |s| && s[i] < 0.0) ==>
      exists i :: 0 <= i < |s| && s[i] - LowestOrZero(s) == 0.0
  {
  }
}

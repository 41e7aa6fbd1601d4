/** The iteration control of dietrich, pybaselines/classification.py:364-389:
    after the classification, a polynomial is fitted to the rough baseline, the
    baseline points of the rough baseline are replaced by the fit, and the fit
    is repeated until the coefficients stop changing. The least-squares fit
    (`np.dot(pseudo_inverse, rough_baseline)`), its evaluation
    (`np.dot(vander, coef)`) and `relative_difference` are parameters. */
module Dietrich {
  import opened Masks
  import opened Results
  import opened Interp
  import opened Classifiers

  /** `np.dot(pseudo_inverse, rough_baseline)`: coefficients of the fit. */
  type Fit = seq<real> -> seq<real>

  /** `np.dot(vander, coef)`: the fitted baseline. */
  type Evaluate = seq<real> -> seq<real>

  /** `relative_difference(old, new)` */
  type RelDiff = (seq<real>, seq<real>) -> real

  /** The evaluated fit always has one value per data point. */
  ghost predicate Evaluates(evaluate: Evaluate, n: int) {
    forall c :: |evaluate(c)| == n
  }

  /** Evaluates at one argument. A helper that hands the solver this one
      instance where it does not pick it by itself; it carries no proof. */
  lemma EvaluatesAt(evaluate: Evaluate, n: int, c: seq<real>)
    requires Evaluates(evaluate, n)
    ensures |evaluate(c)| == n
  {
  }

  /** `rough[mask] = baseline[mask]` */
  function Replace(rough: seq<real>, baseline: seq<real>, mask: seq<bool>): (r: seq<real>)
    requires |rough| == |baseline| == |mask|
    ensures |r| == |rough|
  {
    seq(|rough|, i requires 0 <= i < |rough| => if mask[i] then baseline[i] else rough[i])
  }

  /** The rough baseline after k replacement rounds. */
  function Rough(r0: seq<real>, mask: seq<bool>, fit: Fit, evaluate: Evaluate, k: nat)
      : (r: seq<real>)
    requires |r0| == |mask| && Evaluates(evaluate, |r0|)
    ensures |r| == |r0|
  {
    if k == 0 then r0
    else
      var prev := Rough(r0, mask, fit, evaluate, k - 1);
      EvaluatesAt(evaluate, |r0|, fit(prev));
      Replace(prev, evaluate(fit(prev)), mask)
  }

  /** The coefficients fitted in round k (round 0 is the first fit). */
  function Coef(r0: seq<real>, mask: seq<bool>, fit: Fit, evaluate: Evaluate, k: nat): seq<real>
    requires |r0| == |mask| && Evaluates(evaluate, |r0|)
  {
    fit(Rough(r0, mask, fit, evaluate, k))
  }

  /** Only baseline points are ever replaced: a peak point keeps the value the
      interpolation gave it. */
  lemma {:induction false} RoughKeepsPeakPoints(r0: seq<real>, mask: seq<bool>, fit: Fit,
                                                evaluate: Evaluate, k: nat, i: int)
    requires |r0| == |mask| && Evaluates(evaluate, |r0|) && 0 <= i < |r0| && !mask[i]
    ensures Rough(r0, mask, fit, evaluate, k)[i] == r0[i]
  {
    if k > 0 {
      RoughKeepsPeakPoints(r0, mask, fit, evaluate, k - 1, i);
    }
  }

  /** After a round a baseline point holds the previous fit. */
  lemma RoughTakesFit(r0: seq<real>, mask: seq<bool>, fit: Fit, evaluate: Evaluate, k: nat, i: int)
    requires |r0| == |mask| && Evaluates(evaluate, |r0|) && 0 <= i < |r0| && mask[i]
    ensures Rough(r0, mask, fit, evaluate, k + 1)[i]
            == evaluate(Coef(r0, mask, fit, evaluate, k))[i]
  {
  }

  /** `rough_baseline[mask] = baseline[mask]`, in place. */
  method ReplaceInPlace(rough: array<real>, baseline: seq<real>, mask: seq<bool>)
    requires rough.Length == |baseline| == |mask|
    modifies rough
    ensures rough[..] == Replace(old(rough[..]), baseline, mask)
  {
    forall i | 0 <= i < rough.Length && mask[i] {
      rough[i] := baseline[i];
    }
  }

  /** One round: the baseline points of the rough baseline take the fitted
      values, and the polynomial is fitted again. */
  method DietrichRound(r0: seq<real>, mask: seq<bool>, fit: Fit, evaluate: Evaluate,
                       rough: array<real>, ghost n: nat, coef: seq<real>)
      returns (coef': seq<real>, baseline': seq<real>)
    requires |r0| == |mask| && Evaluates(evaluate, |r0|)
    requires rough[..] == Rough(r0, mask, fit, evaluate, n) && coef == Coef(r0, mask, fit, evaluate, n)
    modifies rough
    ensures rough[..] == Rough(r0, mask, fit, evaluate, n + 1)
    ensures coef' == Coef(r0, mask, fit, evaluate, n + 1) && baseline' == evaluate(coef')
  {
    EvaluatesAt(evaluate, |r0|, coef);
    ReplaceInPlace(rough, evaluate(coef), mask);
    coef' := fit(rough[..]);
    baseline' := evaluate(coef');
  }

  /** The relative difference between the coefficient vectors of rounds j
      and j + 1, `relative_difference(old_coef, coef)` at line 381. */
  function Compared(r0: seq<real>, mask: seq<bool>, fit: Fit, evaluate: Evaluate,
                    relDiff: RelDiff, j: nat): real
    requires |r0| == |mask| && Evaluates(evaluate, |r0|)
  {
    relDiff(Coef(r0, mask, fit, evaluate, j), Coef(r0, mask, fit, evaluate, j + 1))
  }

  /** The history facts of the tolerance array: entry j compares the coefficient
      vectors of rounds j and j + 1, every entry but the last reached the tolerance, and
      the last missed it unless the array is full. */
  ghost predicate History(r0: seq<real>, mask: seq<bool>, fit: Fit, evaluate: Evaluate,
                          relDiff: RelDiff, tol: real, maxIter: int, hist: seq<real>)
    requires |r0| == |mask| && Evaluates(evaluate, |r0|)
  {
    && 1 <= |hist| <= maxIter - 1
    && (forall j :: 0 <= j < |hist| ==> hist[j] == Compared(r0, mask, fit, evaluate, relDiff, j))
    && (forall j :: 0 <= j < |hist| - 1 ==> hist[j] >= tol)
    && (|hist| < maxIter - 1 ==> hist[|hist| - 1] < tol)
  }

  /** The loop of dietrich, after the first fit. */
  method DietrichLoop(r0: seq<real>, mask: seq<bool>, maxIter: int, tol: real,
                      fit: Fit, evaluate: Evaluate, relDiff: RelDiff, rough: array<real>,
                      coef0: seq<real>)
      returns (baseline: seq<real>, tolHistory: seq<real>)
    requires |r0| == |mask| && Evaluates(evaluate, |r0|) && maxIter > 1
    requires rough[..] == Rough(r0, mask, fit, evaluate, 0) && coef0 == Coef(r0, mask, fit, evaluate, 0)
    modifies rough
    ensures History(r0, mask, fit, evaluate, relDiff, tol, maxIter, tolHistory)
    ensures baseline == evaluate(Coef(r0, mask, fit, evaluate, |tolHistory|))
  {
    var coef := coef0;
    var oldCoef := coef;
    baseline := evaluate(coef);
    var hist := new real[maxIter - 1];
    var n := 0;
    ghost var h: seq<real> := [];
    while n < maxIter - 1
      invariant 0 <= n <= maxIter - 1 && n == |h|
      invariant rough.Length == |r0| && rough != hist
      invariant rough[..] == Rough(r0, mask, fit, evaluate, n)
      invariant coef == oldCoef == Coef(r0, mask, fit, evaluate, n)
      invariant baseline == evaluate(coef)
      invariant hist[..n] == h
      invariant forall j :: 0 <= j < |h| ==> h[j] == Compared(r0, mask, fit, evaluate, relDiff, j)
      invariant forall j :: 0 <= j < |h| ==> h[j] >= tol
    {
      coef, baseline := DietrichRound(r0, mask, fit, evaluate, rough, n, coef);
      var calcDifference := relDiff(oldCoef, coef);
      hist[n] := calcDifference;
      h := h + [calcDifference];
      n := n + 1;
      assert hist[..n] == h;
      if calcDifference < tol {
        break;
      }
      oldCoef := coef;
    }
    tolHistory := hist[..n];
  }

  /** The refinement loop of dietrich from the rough baseline r0 on. The
      tolerance history is present only when max_iter > 1. */
  method DietrichRefine(r0: seq<real>, mask: seq<bool>, maxIter: int, tol: real,
                        fit: Fit, evaluate: Evaluate, relDiff: RelDiff)
      returns (baseline: seq<real>, tolHistory: Option<seq<real>>)
    requires |r0| == |mask| && Evaluates(evaluate, |r0|)
    ensures maxIter <= 0 ==> baseline == r0
    ensures tolHistory.Some? <==> maxIter > 1
    ensures maxIter == 1 ==> baseline == evaluate(Coef(r0, mask, fit, evaluate, 0))
    ensures tolHistory.Some? ==>
              && History(r0, mask, fit, evaluate, relDiff, tol, maxIter, tolHistory.value)
              && baseline == evaluate(Coef(r0, mask, fit, evaluate, |tolHistory.value|))
  {
    baseline := r0;
    tolHistory := None;
    if maxIter > 0 {
      var rough := new real[|r0|](i requires 0 <= i < |r0| => r0[i]);
      assert rough[..] == Rough(r0, mask, fit, evaluate, 0);
      var coef := fit(rough[..]);
      baseline := evaluate(coef);
      if maxIter > 1 {
        var hist;
        baseline, hist := DietrichLoop(r0, mask, maxIter, tol, fit, evaluate, relDiff, rough, coef);
        tolHistory := Some(hist);
      }
    }
  }

  /** dietrich from the raw thresholded mask on: the classifier mask, the rough
      baseline of _averaged_interp, and the refinement. */
  method DietrichFit(x: seq<real>, y: seq<real>, raw: seq<bool>, w: seq<real>, h: nat,
                     interp: Interpolator, maxIter: int, tol: real,
                     fit: Fit, evaluate: Evaluate, relDiff: RelDiff)
      returns (baseline: seq<real>, mask: seq<bool>, tolHistory: Option<seq<real>>)
    requires |x| == |y| == |raw| == |w| && KeepsLength(interp) && Evaluates(evaluate, |y|)
    ensures mask == ClassifierMask(raw, w)
    ensures maxIter <= 0 ==> baseline == Interpolated(x, y, mask, h, interp)
    ensures tolHistory.Some? <==> maxIter > 1
    ensures maxIter == 1 ==>
              baseline == evaluate(Coef(Interpolated(x, y, mask, h, interp), mask, fit, evaluate, 0))
    ensures tolHistory.Some? ==>
              var r0 := Interpolated(x, y, mask, h, interp);
              && History(r0, mask, fit, evaluate, relDiff, tol, maxIter, tolHistory.value)
              && baseline == evaluate(Coef(r0, mask, fit, evaluate, |tolHistory.value|))
  {
    mask := ClassifierMask(raw, w);
    var rough, warning := AveragedInterp(x, y, mask, h, interp);
    baseline, tolHistory := DietrichRefine(rough, mask, maxIter, tol, fit, evaluate, relDiff);
  }
}

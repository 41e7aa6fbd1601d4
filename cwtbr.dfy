/** The control flow of cwt_br, pybaselines/classification.py:775-868: the
    sweep over wavelet scales that stops just after the Shannon entropy dips,
    and the refinement loop that fits a polynomial to the masked points, drops
    outliers, and re-admits points that lie below the fit. The entropy, the
    masked least-squares fit, the outlier cutoff and `relative_difference` are
    parameters. */
module CwtBr {
  import opened Masks
  import opened Results
  import opened Interp

  // ------------------------------------------------------------------
  // The scale sweep

  /** A Shannon entropy, or the starting value `-np.inf`. */
  datatype Entropy = NegInf | Finite(value: real)

  /** `a < b` on entropies; nothing lies below `-np.inf`. */
  predicate Below(a: Entropy, b: Entropy) {
    match (a, b)
    case (NegInf, Finite(_)) => true
    case (Finite(u), Finite(v)) => u < v
    case _ => false
  }

  /** `max(2, y.shape[0] // 500)` */
  function MinScale(n: nat): (s: int)
    ensures s >= 2 && s >= n / 500
  {
    Max(2, n / 500)
  }

  /** The stop rule of line 794 once both previous entropies are finite: the
      entropy fell from s-2 to s-1 and rises again at s. */
  predicate StopsAt(entropy: int -> real, minScale: int, s: int) {
    s >= minScale + 2 && entropy(s - 1) < entropy(s - 2) && entropy(s) > entropy(s - 1)
  }

  /** The scale the sweep ends on when it reaches scale s. */
  function SweepFrom(entropy: int -> real, minScale: int, maxScale: int, s: int): int
    requires s <= maxScale
    decreases maxScale - s
  {
    if s == maxScale || StopsAt(entropy, minScale, s) then s
    else SweepFrom(entropy, minScale, maxScale, s + 1)
  }

  /** The scale the sweep returns; an empty range of scales leaves `scale`
      unbound in the source, which raises. */
  function Sweep(n: nat, maxScale: int, entropy: int -> real): Result<int> {
    if maxScale < MinScale(n) then Err("empty range of scales")
    else Ok(SweepFrom(entropy, MinScale(n), maxScale, MinScale(n)))
  }

  lemma {:induction false} SweepFromRule(entropy: int -> real, minScale: int, maxScale: int, s: int)
    requires s <= maxScale
    ensures var r := SweepFrom(entropy, minScale, maxScale, s);
            && s <= r <= maxScale
            && (forall t :: s <= t < r ==> !StopsAt(entropy, minScale, t))
            && (StopsAt(entropy, minScale, r) || r == maxScale)
    decreases maxScale - s
  {
    if !(s == maxScale || StopsAt(entropy, minScale, s)) {
      SweepFromRule(entropy, minScale, maxScale, s + 1);
    }
  }

  /** The sweep returns a scale in [min_scale, max_scale]; it stops at the
      first scale at which the entropy of the previous scale is a strict local
      minimum, and otherwise runs to max_scale. */
  lemma SweepStopRule(n: nat, maxScale: int, entropy: int -> real)
    ensures Sweep(n, maxScale, entropy).Ok? <==> MinScale(n) <= maxScale
    ensures Sweep(n, maxScale, entropy).Ok? ==>
              var s := Sweep(n, maxScale, entropy).value;
              && MinScale(n) <= s <= maxScale
              && (forall t :: MinScale(n) <= t < s ==> !StopsAt(entropy, MinScale(n), t))
              && (StopsAt(entropy, MinScale(n), s) || s == maxScale)
  {
    if MinScale(n) <= maxScale {
      SweepFromRule(entropy, MinScale(n), maxScale, MinScale(n));
    }
  }

  /** The returned scale is the one after the dip, not the scale of least
      entropy: with the entropy lowest at scale 3 the sweep returns 4. */
  lemma SweepReturnsScaleAfterDip()
    ensures var entropy := (s: int) => if s == 3 then 0.0 else 1.0;
            && Sweep(100, 10, entropy) == Ok(4)
            && entropy(3) < entropy(4)
  {
    var entropy := (s: int) => if s == 3 then 0.0 else 1.0;
    assert !StopsAt(entropy, 2, 2) && !StopsAt(entropy, 2, 3) && StopsAt(entropy, 2, 4);
  }

  /** The scale loop of lines 785-797, carrying `shannon_old` and
      `shannon_current`. */
  method ScaleSweep(n: nat, maxScale: int, entropy: int -> real) returns (r: Result<int>)
    ensures r == Sweep(n, maxScale, entropy)
  {
    var minScale := Max(2, n / 500);
    if maxScale < minScale {
      return Err("empty range of scales");
    }
    var shannonOld := NegInf;
    var shannonCurrent := NegInf;
    var scale := minScale;
    while true
      invariant minScale <= scale <= maxScale
      invariant shannonCurrent == if scale - 1 >= minScale then Finite(entropy(scale - 1)) else NegInf
      invariant shannonOld == if scale - 2 >= minScale then Finite(entropy(scale - 2)) else NegInf
      invariant SweepFrom(entropy, minScale, maxScale, minScale)
                == SweepFrom(entropy, minScale, maxScale, scale)
      decreases maxScale - scale
    {
      var shannonEntropy := Finite(entropy(scale));
      if Below(shannonCurrent, shannonOld) && Below(shannonCurrent, shannonEntropy) {
        assert StopsAt(entropy, minScale, scale);
        return Ok(scale);
      }
      assert !StopsAt(entropy, minScale, scale);
      if scale == maxScale {
        return Ok(scale);
      }
      shannonOld := shannonCurrent;
      shannonCurrent := shannonEntropy;
      scale := scale + 1;
    }
  }

  // ------------------------------------------------------------------
  // The refinement loop

  /** `vander.dot(np.linalg.lstsq(vander[mask], y[mask], None)[0])`: the
      polynomial fitted to the masked points, evaluated everywhere. */
  type MaskFit = seq<bool> -> seq<real>

  /** `num_std * np.std(residual)` */
  type Cutoff = seq<real> -> real

  /** `relative_difference(old, new)` */
  type RelDiff = (seq<real>, seq<real>) -> real

  /** The fit has one value per data point. */
  ghost predicate FitsAll(fit: MaskFit, n: int) {
    forall m :: |fit(m)| == n
  }

  /** FitsAll at one argument. A helper that hands the solver this one
      instance where it does not pick it by itself; it carries no proof. */
  lemma FitsAllAt(fit: MaskFit, n: int, m: seq<bool>)
    requires FitsAll(fit, n)
    ensures |fit(m)| == n
  {
  }

  /** `mask[residual > cutoff] = False` with `residual = y - baseline`. */
  function Trim(y: seq<real>, baseline: seq<real>, mask: seq<bool>, cutoff: Cutoff)
      : (r: seq<bool>)
    requires |y| == |baseline| == |mask|
    ensures |r| == |mask|
  {
    var residual := seq(|y|, i requires 0 <= i < |y| => y[i] - baseline[i]);
    seq(|mask|, i requires 0 <= i < |mask| => mask[i] && !(residual[i] > cutoff(residual)))
  }

  /** `y < baseline` */
  function BelowFit(y: seq<real>, baseline: seq<real>): (r: seq<bool>)
    requires |y| == |baseline|
    ensures |r| == |y|
    ensures forall i :: 0 <= i < |y| ==> (r[i] <==> y[i] < baseline[i])
  {
    seq(|y|, i requires 0 <= i < |y| => y[i] < baseline[i])
  }

  /** `binary_erosion(y < baseline, np.ones(2 * (num_y // 200) + 1))`: the
      points re-admitted after a round. */
  function Readmitted(y: seq<real>, baseline: seq<real>): (r: seq<bool>)
    requires |y| == |baseline|
    ensures |r| == |y|
  {
    Erode(BelowFit(y, baseline), Ones(|y| / 200))
  }

  /** One update of the mask from the mask and the fit to it. */
  type MaskStep = (seq<bool>, seq<real>) -> seq<bool>

  /** Line 845 as a step: `mask[residual > cutoff] = False`. Arguments of
      another length, which the loop never passes, leave the mask alone. */
  function TrimStep(y: seq<real>, cutoff: Cutoff): MaskStep {
    (m: seq<bool>, b: seq<real>) => if |m| == |y| && |b| == |y| then Trim(y, b, m, cutoff) else m
  }

  /** Lines 860-861 as a step: `mask |= added_points`. */
  function ReadmitStep(y: seq<real>): MaskStep {
    (t: seq<bool>, b: seq<real>) => if |t| == |y| && |b| == |y| then Or(t, Readmitted(y, b)) else t
  }

  /** The refinement loop's inputs: the data, the wavelet mask it starts
      from, the fit, the two mask steps of a round, the relative difference,
      tol and max_iter. */
  datatype Loop = Loop(y: seq<real>, m0: seq<bool>, fit: MaskFit, trim: MaskStep, readmit: MaskStep,
                       relDiff: RelDiff, tol: real, maxIter: nat)

  /** The loop of cwt_br. */
  function CwtBrLoop(y: seq<real>, m0: seq<bool>, fit: MaskFit, cutoff: Cutoff, relDiff: RelDiff,
                     tol: real, maxIter: nat): Loop
  {
    Loop(y, m0, fit, TrimStep(y, cutoff), ReadmitStep(y), relDiff, tol, maxIter)
  }

  /** The mask at the start of round k. */
  function MaskAt(l: Loop, k: nat): seq<bool>
    decreases k, 0
  {
    if k == 0 then l.m0
    else var t := TrimmedAt(l, k - 1); l.readmit(t, l.fit(t))
  }

  /** The mask of round k after the outliers are dropped. */
  function TrimmedAt(l: Loop, k: nat): seq<bool>
    decreases k, 1
  {
    var m := MaskAt(l, k);
    l.trim(m, l.fit(m))
  }

  /** The baseline fitted at the end of round k. */
  function BaselineAt(l: Loop, k: nat): seq<real> {
    l.fit(TrimmedAt(l, k))
  }

  /** `baseline_old` in round k: the data in round 0, then the previous fit. */
  function PreviousAt(l: Loop, k: nat): seq<real> {
    if k == 0 then l.y else BaselineAt(l, k - 1)
  }

  /** In the loop of cwt_br every mask has one entry per data point. */
  lemma {:induction false} CwtBrMaskLengths(y: seq<real>, m0: seq<bool>, fit: MaskFit, cutoff: Cutoff,
                                            relDiff: RelDiff, tol: real, maxIter: nat, k: nat)
    requires |m0| == |y| && FitsAll(fit, |y|)
    ensures var l := CwtBrLoop(y, m0, fit, cutoff, relDiff, tol, maxIter);
            |MaskAt(l, k)| == |TrimmedAt(l, k)| == |BaselineAt(l, k)| == |y|
  {
    var l := CwtBrLoop(y, m0, fit, cutoff, relDiff, tol, maxIter);
    if k > 0 {
      CwtBrMaskLengths(y, m0, fit, cutoff, relDiff, tol, maxIter, k - 1);
      var t := TrimmedAt(l, k - 1);
      FitsAllAt(fit, |y|, t);
      assert MaskAt(l, k) == Or(t, Readmitted(y, fit(t)));
    }
    var m := MaskAt(l, k);
    FitsAllAt(fit, |y|, m);
    assert TrimmedAt(l, k) == Trim(y, fit(m), m, cutoff);
    FitsAllAt(fit, |y|, TrimmedAt(l, k));
  }

  /** Dropping outliers only removes points: a point survives exactly when it
      was in the mask and its residual does not exceed the cutoff. */
  lemma TrimOnlyRemoves(y: seq<real>, baseline: seq<real>, mask: seq<bool>, cutoff: Cutoff, i: int)
    requires |y| == |baseline| == |mask| && 0 <= i < |mask|
    ensures Trim(y, baseline, mask, cutoff)[i] ==> mask[i]
    ensures var residual := seq(|y|, j requires 0 <= j < |y| => y[j] - baseline[j]);
            Trim(y, baseline, mask, cutoff)[i] <==> mask[i] && residual[i] <= cutoff(residual)
  {
  }

  /** A point that enters the mask between rounds without having survived the
      trimming lies, together with every point within `num_y // 200` of it,
      strictly below the fit of that round. */
  lemma ReadmittedBelowFit(y: seq<real>, m0: seq<bool>, fit: MaskFit, cutoff: Cutoff,
                           relDiff: RelDiff, tol: real, maxIter: nat, k: nat, i: int)
    requires 0 <= i < |y|
    requires var l := CwtBrLoop(y, m0, fit, cutoff, relDiff, tol, maxIter);
             && |TrimmedAt(l, k)| == |y| && |BaselineAt(l, k)| == |y|
             && i < |MaskAt(l, k + 1)| && MaskAt(l, k + 1)[i] && !TrimmedAt(l, k)[i]
    ensures 0 <= i - |y| / 200 && i + |y| / 200 < |y|
    ensures var l := CwtBrLoop(y, m0, fit, cutoff, relDiff, tol, maxIter);
            forall j :: i - |y| / 200 <= j <= i + |y| / 200 ==> y[j] < BaselineAt(l, k)[j]
  {
    var l := CwtBrLoop(y, m0, fit, cutoff, relDiff, tol, maxIter);
    var t := TrimmedAt(l, k);
    assert MaskAt(l, k + 1) == Or(t, Readmitted(y, fit(t)));
    ReadmitWindow(y, fit(t), t, i);
  }

  lemma ReadmitWindow(y: seq<real>, b: seq<real>, t: seq<bool>, i: int)
    requires |t| == |y| == |b| && 0 <= i < |y|
    requires Or(t, Readmitted(y, b))[i] && !t[i]
    ensures 0 <= i - |y| / 200 && i + |y| / 200 < |y|
    ensures forall j :: i - |y| / 200 <= j <= i + |y| / 200 ==> y[j] < b[j]
  {
    var h := |y| / 200;
    assert Readmitted(y, b)[i];
    ErodeOnesAt(BelowFit(y, b), h, i);
    assert At(BelowFit(y, b), i - h) && At(BelowFit(y, b), i + h);
    forall j | i - h <= j <= i + h ensures y[j] < b[j] {
      assert At(BelowFit(y, b), j);
    }
  }

  /** Re-admission does not consult the weights: a point excluded by a zero
      weight from the wavelet mask can be in the mask after one round. */
  lemma ReadmissionIgnoresWeights()
    ensures var y, m0 := [0.0, 0.0, 0.0], [true, true, false];
            var fit := (m: seq<bool>) => [1.0, 1.0, 1.0];
            var cutoff := (r: seq<real>) => 10.0;
            var l := CwtBrLoop(y, m0, fit, cutoff, (a: seq<real>, b: seq<real>) => 0.0, 0.0, 0);
            && FitsAll(fit, 3)
            && !m0[2] && MaskAt(l, 1)[2]
  {
    var y, m0 := [0.0, 0.0, 0.0], [true, true, false];
    var fit := (m: seq<bool>) => [1.0, 1.0, 1.0];
    var cutoff := (r: seq<real>) => 10.0;
    var l := CwtBrLoop(y, m0, fit, cutoff, (a: seq<real>, b: seq<real>) => 0.0, 0.0, 0);
    assert FitsAll(fit, 3);
    var t := TrimmedAt(l, 0);
    assert t == Trim(y, [1.0, 1.0, 1.0], m0, cutoff);
    var b := fit(t);
    assert b == [1.0, 1.0, 1.0];
    ErodeOnesAt(BelowFit(y, b), 0, 2);
    assert Readmitted(y, b)[2];
    assert MaskAt(l, 1) == Or(t, Readmitted(y, b));
  }

  /** What the refinement loop returns. */
  datatype Refined = Refined(baseline: seq<real>, mask: seq<bool>, tolHistory: seq<real>)

  /** One round's trimming, in place: `mask[residual > cutoff] = False`. */
  method TrimInPlace(y: seq<real>, baseline: seq<real>, mask: array<bool>, cutoff: Cutoff)
    requires |y| == |baseline| == mask.Length
    modifies mask
    ensures mask[..] == Trim(y, baseline, old(mask[..]), cutoff)
  {
    var residual := seq(|y|, i requires 0 <= i < |y| => y[i] - baseline[i]);
    var limit := cutoff(residual);
    forall i | 0 <= i < mask.Length && residual[i] > limit {
      mask[i] := false;
    }
  }

  /** `mask |= added_points`, in place. */
  method OrInPlace(mask: array<bool>, added: seq<bool>)
    requires mask.Length == |added|
    modifies mask
    ensures mask[..] == Or(old(mask[..]), added)
  {
    forall i | 0 <= i < mask.Length && added[i] {
      mask[i] := true;
    }
  }

  /** The relative difference computed in round j. */
  function Expected(l: Loop, j: nat): real {
    l.relDiff(PreviousAt(l, j), BaselineAt(l, j))
  }

  /** The relative differences of rounds 0 to n - 1. */
  function Expecteds(l: Loop, n: nat): (e: seq<real>)
    ensures |e| == n
  {
    if n == 0 then [] else Expecteds(l, n - 1) + [Expected(l, n - 1)]
  }

  /** Entry j of the differences compares `baseline_old` of round j with the
      fit of round j. */
  lemma {:induction false} ExpectedsAt(l: Loop, n: nat, j: nat)
    requires j < n
    ensures Expecteds(l, n)[j] == Expected(l, j)
  {
    if j < n - 1 {
      ExpectedsAt(l, n - 1, j);
    }
  }

  /** The history is the relative differences of the rounds so far, and every
      entry but possibly the last one reached tol. */
  predicate Recorded(l: Loop, hist: seq<real>) {
    && hist == Expecteds(l, |hist|)
    && (forall j :: 0 <= j < |hist| - 1 ==> hist[j] >= l.tol)
  }

  lemma RecordedSnoc(l: Loop, hist: seq<real>)
    requires Recorded(l, hist)
    requires |hist| > 0 ==> hist[|hist| - 1] >= l.tol
    ensures Recorded(l, hist + [Expected(l, |hist|)])
  {
    var h := hist + [Expected(l, |hist|)];
    forall j | 0 <= j < |h| - 1 ensures h[j] >= l.tol {
      assert h[j] == hist[j];
    }
  }

  /** The first half of a round: fit, drop the outliers, fit again. */
  method TrimRound(y: seq<real>, mask: array<bool>, fit: MaskFit, cutoff: Cutoff)
      returns (baseline: seq<real>)
    requires mask.Length == |y| && FitsAll(fit, |y|)
    modifies mask
    ensures mask[..] == TrimStep(y, cutoff)(old(mask[..]), fit(old(mask[..])))
    ensures baseline == fit(mask[..]) && |baseline| == |y|
  {
    FitsAllAt(fit, |y|, mask[..]);
    baseline := fit(mask[..]);
    TrimInPlace(y, baseline, mask, cutoff);
    baseline := fit(mask[..]);
    FitsAllAt(fit, |y|, mask[..]);
  }

  /** The second half of a round: `mask |= added_points`. */
  method ReadmitRound(y: seq<real>, mask: array<bool>, baseline: seq<real>)
    requires mask.Length == |y| == |baseline|
    modifies mask
    ensures mask[..] == ReadmitStep(y)(old(mask[..]), baseline)
  {
    OrInPlace(mask, Readmitted(y, baseline));
  }

  /** What the loop returns when it enters a round with the given mask and
      `baseline_old`, the differences of the earlier rounds being hist: after
      the last round, `baseline_old` (which is then the last fit) and the mask;
      otherwise, if the round's difference is below tol, its fit and trimmed
      mask; otherwise what the next round returns. */
  function RefineFrom(l: Loop, mask: seq<bool>, baselineOld: seq<real>, hist: seq<real>): (r: Refined)
    requires |hist| <= l.maxIter + 1
    ensures |hist| + (if |hist| <= l.maxIter then 1 else 0) <= |r.tolHistory| <= l.maxIter + 1
    decreases l.maxIter + 1 - |hist|
  {
    if |hist| == l.maxIter + 1 then Refined(baselineOld, mask, hist)
    else
      var t := l.trim(mask, l.fit(mask));
      var b := l.fit(t);
      var d := l.relDiff(baselineOld, b);
      if d < l.tol then Refined(b, t, hist + [d])
      else RefineFrom(l, l.readmit(t, b), b, hist + [d])
  }

  /** The mask returned after the rounds of hist: the trimmed mask of the last
      round if it stopped below tol, else the mask after re-admission. */
  function FinalMask(l: Loop, hist: seq<real>): seq<bool>
    requires |hist| > 0
  {
    if hist[|hist| - 1] < l.tol then TrimmedAt(l, |hist| - 1) else MaskAt(l, |hist|)
  }

  /** Entered at round k with that round's mask and `baseline_old` and an
      exact history of the earlier rounds, the loop ends with an exact history,
      either at the first difference below tol (with that round's fit and
      trimmed mask) or after max_iter + 1 rounds (with the last fit and the mask
      after re-admission). */
  lemma {:induction false} RefineFromSpec(l: Loop, mask: seq<bool>, baselineOld: seq<real>, hist: seq<real>)
    requires |hist| <= l.maxIter + 1
    requires mask == MaskAt(l, |hist|) && baselineOld == PreviousAt(l, |hist|)
    requires Recorded(l, hist)
    requires |hist| > 0 ==> hist[|hist| - 1] >= l.tol
    ensures var r := RefineFrom(l, mask, baselineOld, hist);
            var n := |r.tolHistory|;
            && 1 <= n
            && Recorded(l, r.tolHistory)
            && (r.tolHistory[n - 1] < l.tol || n == l.maxIter + 1)
            && r.baseline == BaselineAt(l, n - 1)
            && r.mask == FinalMask(l, r.tolHistory)
    decreases l.maxIter + 1 - |hist|
  {
    var k := |hist|;
    if k < l.maxIter + 1 {
      var t := TrimmedAt(l, k);
      var b := BaselineAt(l, k);
      var d := Expected(l, k);
      assert d == l.relDiff(baselineOld, b);
      RecordedSnoc(l, hist);
      var hist' := hist + [d];
      assert |hist'| == k + 1 && hist'[k] == d;
      if d >= l.tol {
        assert MaskAt(l, k + 1) == l.readmit(t, b);
        RefineFromSpec(l, l.readmit(t, b), b, hist');
      }
    }
  }

  /** The refinement loop of lines 838-861 from the wavelet mask m0 on. The
      `range(max_iter + 1)` is empty for a negative max_iter, which leaves the
      loop variable unbound in the source and raises. */
  method CwtBrRefine(y: seq<real>, m0: seq<bool>, maxIter: int, tol: real,
                     fit: MaskFit, cutoff: Cutoff, relDiff: RelDiff)
      returns (r: Result<Refined>)
    requires |m0| == |y| && FitsAll(fit, |y|)
    ensures r.Err? <==> maxIter < 0
    ensures r.Ok? ==> r.value == RefineFrom(CwtBrLoop(y, m0, fit, cutoff, relDiff, tol, maxIter), m0, y, [])
  {
    if maxIter < 0 {
      return Err("max_iter must be non-negative");
    }
    ghost var l := CwtBrLoop(y, m0, fit, cutoff, relDiff, tol, maxIter);
    var baselineOld := y;
    var mask := new bool[|y|](i requires 0 <= i < |y| => m0[i]);
    assert mask[..] == m0;
    var hist := new real[maxIter + 1];
    var baseline := y;
    var n := 0;
    ghost var h: seq<real> := [];
    while n < maxIter + 1
      invariant 0 <= n <= maxIter + 1 && n == |h|
      invariant mask.Length == |y| && |baselineOld| == |y|
      invariant hist[..n] == h
      invariant RefineFrom(l, mask[..], baselineOld, h) == RefineFrom(l, m0, y, [])
      invariant n > 0 ==> baseline == baselineOld
    {
      baseline := TrimRound(y, mask, fit, cutoff);
      var calcDifference := relDiff(baselineOld, baseline);
      hist[n] := calcDifference;
      h := h + [calcDifference];
      n := n + 1;
      assert hist[..n] == h;
      if calcDifference < tol {
        break;
      }
      baselineOld := baseline;
      ReadmitRound(y, mask, baseline);
    }
    return Ok(Refined(baseline, mask[..], hist[..n]));
  }

  /** What cwt_br's refinement returns: the exact history of relative
      differences, stopping at the first one below tol or after max_iter + 1
      rounds, with the fit of the last round and its trimmed mask, or, when
      no difference fell below tol, the mask after the last re-admission. */
  lemma CwtBrRefineSpec(y: seq<real>, m0: seq<bool>, fit: MaskFit, cutoff: Cutoff,
                        relDiff: RelDiff, tol: real, maxIter: nat)
    ensures var l := CwtBrLoop(y, m0, fit, cutoff, relDiff, tol, maxIter);
            var r := RefineFrom(l, m0, y, []);
            var n := |r.tolHistory|;
            && 1 <= n <= maxIter + 1
            && r.tolHistory == Expecteds(l, n)
            && (forall j :: 0 <= j < n - 1 ==> r.tolHistory[j] >= tol)
            && (r.tolHistory[n - 1] < tol || n == maxIter + 1)
            && r.baseline == BaselineAt(l, n - 1)
            && r.mask == FinalMask(l, r.tolHistory)
  {
    RefineFromSpec(CwtBrLoop(y, m0, fit, cutoff, relDiff, tol, maxIter), m0, y, []);
  }
}

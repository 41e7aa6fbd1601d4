/** How each classifier of pybaselines/classification.py turns its raw
    thresholded mask into the final baseline mask: the removal of lone points
    and the weights (golotvin, dietrich, fastchrom, fabc), the dilation of
    flagged points (std_distribution) and the reflect-padded erosion of cwt_br.
    The thresholds themselves are floating-point statistics and enter as
    inputs. */
module Classifiers {
  import opened Masks
  import opened Results

  /** `weight_array` as a boolean mask: a point may be a baseline point only
      when its weight is non-zero. */
  function Usable(w: seq<real>): (u: seq<bool>)
    ensures |u| == |w|
    ensures forall i :: 0 <= i < |w| ==> (u[i] <==> w[i] != 0.0)
  {
    seq(|w|, i requires 0 <= i < |w| => w[i] != 0.0)
  }

  /** `_remove_single_points(raw) & weight_array`, the mask of golotvin,
      dietrich, fastchrom and fabc. */
  function ClassifierMask(raw: seq<bool>, w: seq<real>): (mask: seq<bool>)
    requires |raw| == |w|
    ensures |mask| == |raw|
  {
    And(RemoveSinglePoints(raw), Usable(w))
  }

  /** A point is a baseline point exactly when it is kept by the removal of
      lone points and its weight is non-zero; in particular a zero weight
      always gives a peak point. */
  lemma ClassifierMaskAt(raw: seq<bool>, w: seq<real>, i: int)
    requires |raw| == |w| && 0 <= i < |raw|
    ensures ClassifierMask(raw, w)[i] <==> Kept(raw, i) && w[i] != 0.0
    ensures w[i] == 0.0 ==> !ClassifierMask(raw, w)[i]
  {
    RemoveSinglePointsAt(raw, i);
  }

  /** With every weight non-zero the classifier mask is the cleaned mask, so
      it has neither lone baseline points nor interior lone peak points. */
  lemma ClassifierMaskClean(raw: seq<bool>, w: seq<real>)
    requires |raw| == |w|
    requires forall i :: 0 <= i < |w| ==> w[i] != 0.0
    ensures ClassifierMask(raw, w) == RemoveSinglePoints(raw)
    ensures Clean(ClassifierMask(raw, w))
  {
    RemoveSinglePointsClean(raw);
  }

  // ------------------------------------------------------------------
  // std_distribution

  /** `std > num_std * noise_std`: the points flagged as peak points. */
  function Flagged(std: seq<real>, threshold: real): (f: seq<bool>)
    ensures |f| == |std|
    ensures forall i :: 0 <= i < |std| ==> (f[i] <==> std[i] > threshold)
  {
    seq(|std|, i requires 0 <= i < |std| => std[i] > threshold)
  }

  /** `~binary_dilation(flagged, np.ones(2 * fill + 1)) & weight_array`. */
  function StdDistributionMask(std: seq<real>, threshold: real, w: seq<real>, fill: nat)
      : (mask: seq<bool>)
    requires |std| == |w|
    ensures |mask| == |std|
  {
    And(Not(DilateWindow(Flagged(std, threshold), fill)), Usable(w))
  }

  /** A point is a baseline point exactly when its weight is non-zero and no
      flagged point lies within `fill` of it. */
  lemma StdDistributionMaskIff(std: seq<real>, threshold: real, w: seq<real>, fill: nat, i: int)
    requires |std| == |w| && 0 <= i < |std|
    ensures StdDistributionMask(std, threshold, w, fill)[i] <==>
              w[i] != 0.0 &&
              forall j :: 0 <= j < |std| && i - fill <= j <= i + fill ==> std[j] <= threshold
  {
    var f := Flagged(std, threshold);
    if Hits(f, fill, i) {
      var j :| i - fill <= j <= i + fill && At(f, j);
      assert std[j] > threshold;
    } else {
      forall j | 0 <= j < |std| && i - fill <= j <= i + fill ensures std[j] <= threshold {
        assert !At(f, j);
      }
    }
  }

  // ------------------------------------------------------------------
  // cwt_br wavelet mask

  /** The source index that `np.pad(..., mode='reflect')` copies into the
      padded position j (counted from the original first element) of an array
      of n >= 1 points: the edge is not repeated, and positions further out
      than n - 1 reflect again off the other edge. */
  function Reflect(j: int, n: int): (r: int)
    requires n >= 1
    ensures 0 <= r < n
    ensures 0 <= j < n ==> r == j
    decreases if j < 0 then -2 * j + 1 else 2 * j
  {
    if n == 1 then 0
    else if j < 0 then Reflect(-j, n)
    else if j < n then j
    else Reflect(2 * (n - 1) - j, n)
  }

  /** Within one width of either edge the reflection is the mirror image. */
  lemma ReflectNear(j: int, n: int)
    requires n >= 2 && -(n - 1) <= j <= 2 * (n - 1)
    ensures j < 0 ==> Reflect(j, n) == -j
    ensures j >= n ==> Reflect(j, n) == 2 * (n - 1) - j
  {
  }

  /** `np.pad(m, h, 'reflect')` */
  function PadReflect(m: seq<bool>, h: nat): (p: seq<bool>)
    requires |m| >= 1
    ensures |p| == |m| + 2 * h
    ensures forall q :: 0 <= q < |p| ==> p[q] == m[Reflect(q - h, |m|)]
  {
    seq(|m| + 2 * h, q requires 0 <= q < |m| + 2 * h => m[Reflect(q - h, |m|)])
  }

  /** The wavelet mask of cwt_br: the flags `abs_wavelet < num_sigma *
      sigma_opt` are reflect-padded by h, eroded by a full window of width
      2h+1, cut back to the data with `[h:-h]` and combined with the weights.
      An empty input makes the padding raise. With h == 0 the slice `[0:-0]`
      is empty: for more than one point the combination with the weights at
      line 835 fails on the lengths, and for one point the empty slice
      broadcasts against the single weight to an empty mask, on which the
      first fit at line 842 fails. Either way cwt_br raises. */
  function CwtBrWaveletMask(below: seq<bool>, w: seq<real>, h: nat): (r: Result<seq<bool>>)
    requires |below| == |w|
    ensures r.Ok? <==> |below| >= 1 && h >= 1
    ensures r.Ok? ==> |r.value| == |below|
  {
    if |below| == 0 || h == 0 then Err("cannot pad or slice the wavelet mask")
    else
      var eroded := Erode(PadReflect(below, h), Ones(h));
      Ok(And(eroded[h..|below| + h], Usable(w)))
  }

  /** Every flag within h of i, read through the reflection, is set. */
  predicate ReflectedWindow(below: seq<bool>, h: nat, i: int)
    requires |below| >= 1
  {
    forall j :: i - h <= j <= i + h ==> below[Reflect(j, |below|)]
  }

  lemma PaddedWindow(below: seq<bool>, h: nat, i: int)
    requires 0 <= i < |below|
    ensures (forall q :: i <= q <= i + 2 * h ==> At(PadReflect(below, h), q))
            <==> ReflectedWindow(below, h, i)
  {
    var p := PadReflect(below, h);
    if ReflectedWindow(below, h, i) {
      forall q | i <= q <= i + 2 * h ensures At(p, q) {
        assert below[Reflect(q - h, |below|)];
      }
    } else {
      var j :| i - h <= j <= i + h && !below[Reflect(j, |below|)];
      assert !At(p, j + h);
    }
  }

  /** A point is a baseline point exactly when its weight is non-zero and every
      flag within h of it, read through the reflection at the edges, is set. */
  lemma CwtBrWaveletMaskIff(below: seq<bool>, w: seq<real>, h: nat, i: int)
    requires |below| == |w| && |below| >= 1 && h >= 1 && 0 <= i < |below|
    ensures CwtBrWaveletMask(below, w, h).value[i] <==>
              w[i] != 0.0 && ReflectedWindow(below, h, i)
  {
    var e := Erode(PadReflect(below, h), Ones(h));
    assert CwtBrWaveletMask(below, w, h).value[i] == (e[i + h] && w[i] != 0.0);
    ErodeOnesAt(PadReflect(below, h), h, i + h);
    PaddedWindow(below, h, i);
  }

  /** Away from the edges the wavelet mask is the plain erosion: a point is a
      baseline point exactly when its weight is non-zero and all flags within h
      are set. */
  lemma CwtBrWaveletMaskInterior(below: seq<bool>, w: seq<real>, h: nat, i: int)
    requires |below| == |w| && h >= 1 && h <= i < |below| - h
    ensures CwtBrWaveletMask(below, w, h).value[i] <==>
              w[i] != 0.0 && forall j :: i - h <= j <= i + h ==> below[j]
  {
    CwtBrWaveletMaskIff(below, w, h, i);
    if forall j :: i - h <= j <= i + h ==> below[j] {
      assert ReflectedWindow(below, h, i) by {
      forall j | i - h <= j <= i + h ensures below[Reflect(j, |below|)] {
        assert below[j];
      }
      }
    } else {
      var j :| i - h <= j <= i + h && !below[j];
      assert !below[Reflect(j, |below|)];
    }
  }
}

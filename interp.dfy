/** The index side of _averaged_interp, pybaselines/classification.py:86-130:
    a copy of the data in which every peak segment is overwritten by an
    interpolation between the averaged values around its two ends. The
    interpolation itself (_interp_inplace, whose source is not part of this
    model) is a parameter that only has to keep the length of the section. */
module Interp {
  import opened Segments

  /** The warnings _averaged_interp issues, returned as a value. */
  datatype InterpWarning = NoWarning | NoBaselinePoints | NoPeakPoints

  /** `_interp_inplace(x_section, y_section, left, right)`: the new section. */
  type Interpolator = (seq<real>, seq<real>, real, real) -> seq<real>

  ghost predicate KeepsLength(interp: Interpolator) {
    forall xs, ys, l, r :: |interp(xs, ys, l, r)| == |ys|
  }

  /** KeepsLength at one argument. A helper that hands the solver this one
      instance where it does not pick it by itself; it carries no proof. */
  lemma KeepsLengthAt(interp: Interpolator, xs: seq<real>, ys: seq<real>, l: real, r: real)
    requires KeepsLength(interp)
    ensures |interp(xs, ys, l, r)| == |ys|
  {
  }

  function Max(a: int, b: int): int { if a < b then b else a }
  function Min(a: int, b: int): int { if a < b then a else b }

  /** The averaging window `[max(0, i - h), min(i + h + 1, n))` around anchor i. */
  function Window(i: int, h: nat, n: int): (w: (int, int))
    requires 0 <= i < n
    ensures 0 <= w.0 <= i < w.1 <= n
    ensures i - h <= w.0 && w.1 <= i + h + 1
    ensures (w.0 > 0 ==> w.0 == i - h) && (w.1 < n ==> w.1 == i + h + 1)
  {
    (Max(0, i - h), Min(i + h + 1, n))
  }

  function Sum(s: seq<real>): real {
    if |s| == 0 then 0.0 else Sum(s[..|s| - 1]) + s[|s| - 1]
  }

  /** `np.mean` of a non-empty section. */
  function Mean(s: seq<real>): real
    requires |s| > 0
  {
    Sum(s) / (|s| as real)
  }

  /** `mask.sum()` */
  function CountTrue(m: seq<bool>): (c: nat)
    ensures c <= |m|
    ensures c == 0 <==> forall i :: 0 <= i < |m| ==> !m[i]
    ensures c == |m| <==> forall i :: 0 <= i < |m| ==> m[i]
  {
    if |m| == 0 then 0
    else
      var c := CountTrue(m[..|m| - 1]);
      assert forall i :: 0 <= i < |m| - 1 ==> m[..|m| - 1][i] == m[i];
      c + if m[|m| - 1] then 1 else 0
  }

  /** The segments lie inside an array of n points. */
  predicate SegmentsIn(starts: seq<int>, ends: seq<int>, n: int) {
    |starts| == |ends| && forall k :: 0 <= k < |starts| ==> 0 <= starts[k] <= ends[k] < n
  }

  /** The averaged anchor values around the two ends of a segment, computed from
      the original data y (not from the partly interpolated copy). */
  function AnchorMean(y: seq<real>, start: int, h: nat): real
    requires 0 <= start < |y|
  {
    var w := Window(start, h, |y|);
    Mean(y[w.0..w.1])
  }

  /** One pass of the loop body: the section [start, end] of out is replaced. */
  function ApplySegment(x: seq<real>, y: seq<real>, out: seq<real>, start: int, end: int,
                        h: nat, interp: Interpolator): (r: seq<real>)
    requires |x| == |y| == |out| && 0 <= start <= end < |y| && KeepsLength(interp)
    ensures |r| == |out|
    ensures forall i :: 0 <= i < |out| && !(start <= i <= end) ==> r[i] == out[i]
  {
    var section := interp(x[start..end + 1], out[start..end + 1],
                          AnchorMean(y, start, h), AnchorMean(y, end, h));
    out[..start] + section + out[end + 1..]
  }

  /** The segments k, k+1, ... applied in order to out. */
  function ApplyFrom(x: seq<real>, y: seq<real>, out: seq<real>, starts: seq<int>, ends: seq<int>,
                     h: nat, interp: Interpolator, k: nat): (r: seq<real>)
    requires |x| == |y| == |out| && SegmentsIn(starts, ends, |y|) && KeepsLength(interp)
    ensures |r| == |out|
    decreases |starts| - k
  {
    if k >= |starts| then out
    else ApplyFrom(x, y, ApplySegment(x, y, out, starts[k], ends[k], h, interp),
                   starts, ends, h, interp, k + 1)
  }

  lemma SegmentsOfMask(m: seq<bool>)
    ensures SegmentsIn(Starts(m), Ends(m), |m|)
  {
    SegmentBounds(m);
  }

  /** The output of _averaged_interp: the data itself when every point is a
      baseline point (and there is at least one), otherwise the data with every
      peak segment interpolated. */
  function Interpolated(x: seq<real>, y: seq<real>, mask: seq<bool>, h: nat,
                        interp: Interpolator): (r: seq<real>)
    requires |x| == |y| == |mask| && KeepsLength(interp)
    ensures |r| == |y|
  {
    var c := CountTrue(mask);
    if c != 0 && c == |mask| then y
    else
      SegmentsOfMask(mask);
      ApplyFrom(x, y, y, Starts(mask), Ends(mask), h, interp, 0)
  }

  function WarningOf(mask: seq<bool>): InterpWarning {
    var c := CountTrue(mask);
    if c == 0 then NoBaselinePoints else if c == |mask| then NoPeakPoints else NoWarning
  }

  /** Index i lies in one of the segments k, k+1, ... */
  predicate InSegment(starts: seq<int>, ends: seq<int>, i: int, k: nat) {
    exists j :: k <= j < |starts| && j < |ends| && starts[j] <= i <= ends[j]
  }

  lemma {:induction false} ApplyFromOutside(x: seq<real>, y: seq<real>, out: seq<real>,
                                            starts: seq<int>, ends: seq<int>, h: nat,
                                            interp: Interpolator, k: nat)
    requires |x| == |y| == |out| && SegmentsIn(starts, ends, |y|) && KeepsLength(interp)
    ensures forall i :: 0 <= i < |out| && !InSegment(starts, ends, i, k) ==>
              ApplyFrom(x, y, out, starts, ends, h, interp, k)[i] == out[i]
    decreases |starts| - k
  {
    if k < |starts| {
      var out' := ApplySegment(x, y, out, starts[k], ends[k], h, interp);
      ApplyFromOutside(x, y, out', starts, ends, h, interp, k + 1);
      forall i | 0 <= i < |out| && !InSegment(starts, ends, i, k)
        ensures ApplyFrom(x, y, out, starts, ends, h, interp, k)[i] == out[i]
      {
        assert !InSegment(starts, ends, i, k + 1);
        assert !(starts[k] <= i <= ends[k]);
      }
    }
  }

  /** The output has the length of the data and differs from it only inside
      some peak segment [start, end]; with no peak point it equals the data. */
  lemma InterpolatedChangesOnlySegments(x: seq<real>, y: seq<real>, mask: seq<bool>, h: nat,
                                        interp: Interpolator)
    requires |x| == |y| == |mask| && KeepsLength(interp)
    ensures forall i :: 0 <= i < |y| && !InSegment(Starts(mask), Ends(mask), i, 0) ==>
              Interpolated(x, y, mask, h, interp)[i] == y[i]
    ensures (forall i :: 0 <= i < |mask| ==> mask[i]) ==> Interpolated(x, y, mask, h, interp) == y
  {
    SegmentsOfMask(mask);
    ApplyFromOutside(x, y, y, Starts(mask), Ends(mask), h, interp, 0);
    if forall i :: 0 <= i < |mask| ==> mask[i] {
      AllBaselineNoSegments(mask);
    }
  }

  /** With a half-window of 0 the anchors are the raw values at the segment ends. */
  lemma ZeroHalfWindowAnchors(y: seq<real>, i: int)
    requires 0 <= i < |y|
    ensures AnchorMean(y, i, 0) == y[i]
  {
    var w := Window(i, 0, |y|);
    assert y[w.0..w.1] == [y[i]];
    assert Sum([y[i]]) == Sum([]) + y[i];
  }

  lemma ApplySegmentIs(x: seq<real>, y: seq<real>, out: seq<real>, start: int, end: int,
                       h: nat, interp: Interpolator, section: seq<real>)
    requires |x| == |y| == |out| && 0 <= start <= end < |y| && KeepsLength(interp)
    requires section == interp(x[start..end + 1], out[start..end + 1],
                               AnchorMean(y, start, h), AnchorMean(y, end, h))
    ensures |section| == end + 1 - start
    ensures ApplySegment(x, y, out, start, end, h, interp)
            == out[..start] + section + out[start + |section|..]
  {
    KeepsLengthAt(interp, x[start..end + 1], out[start..end + 1],
                  AnchorMean(y, start, h), AnchorMean(y, end, h));
  }

  lemma ApplyFromStep(x: seq<real>, y: seq<real>, out: seq<real>, starts: seq<int>, ends: seq<int>,
                      h: nat, interp: Interpolator, k: nat)
    requires |x| == |y| == |out| && SegmentsIn(starts, ends, |y|) && KeepsLength(interp)
    requires k < |starts|
    ensures ApplyFrom(x, y, out, starts, ends, h, interp, k)
            == ApplyFrom(x, y, ApplySegment(x, y, out, starts[k], ends[k], h, interp),
                         starts, ends, h, interp, k + 1)
  {
  }

  /** `output[start:start + len(section)] = section`, in place. */
  method WriteSection(out: array<real>, start: int, section: seq<real>)
    requires 0 <= start && start + |section| <= out.Length
    modifies out
    ensures out[..] == old(out[..])[..start] + section + old(out[..])[start + |section|..]
  {
    var j := 0;
    while j < |section|
      invariant 0 <= j <= |section|
      invariant forall t :: 0 <= t < out.Length ==>
                  out[t] == if start <= t < start + j then section[t - start] else old(out[t])
    {
      out[start + j] := section[j];
      j := j + 1;
    }
  }

  /** One turn of the loop of _averaged_interp: the anchor means are taken from
      y and the interpolated section is written over [start, end] of out. */
  method ApplySegmentInPlace(x: seq<real>, y: seq<real>, out: array<real>, start: int, end: int,
                             h: nat, interp: Interpolator)
    requires |x| == |y| == out.Length && 0 <= start <= end < |y| && KeepsLength(interp)
    modifies out
    ensures out[..] == ApplySegment(x, y, old(out[..]), start, end, h, interp)
  {
    var leftMean := AnchorMean(y, start, h);
    var rightMean := AnchorMean(y, end, h);
    var section := interp(x[start..end + 1], out[start..end + 1], leftMean, rightMean);
    ghost var before := out[..];
    assert out[start..end + 1] == before[start..end + 1];
    ApplySegmentIs(x, y, before, start, end, h, interp, section);
    WriteSection(out, start, section);
  }

  /** _averaged_interp itself: `output = y.copy()`, then each segment is
      interpolated into the copy in turn. */
  method AveragedInterp(x: seq<real>, y: seq<real>, mask: seq<bool>, h: nat,
                        interp: Interpolator)
      returns (output: seq<real>, warning: InterpWarning)
    requires |x| == |y| == |mask| && KeepsLength(interp)
    ensures output == Interpolated(x, y, mask, h, interp)
    ensures warning == WarningOf(mask)
  {
    var out := new real[|y|](i requires 0 <= i < |y| => y[i]);
    assert out[..] == y;
    var maskSum := CountTrue(mask);
    if maskSum == 0 {
      warning := NoBaselinePoints;
    } else if maskSum == |mask| {
      warning := NoPeakPoints;
      return out[..], warning;
    } else {
      warning := NoWarning;
    }
    var starts, ends := Starts(mask), Ends(mask);
    SegmentsOfMask(mask);
    ghost var target := ApplyFrom(x, y, y, starts, ends, h, interp, 0);
    var k := 0;
    while k < |starts|
      invariant 0 <= k <= |starts|
      invariant out.Length == |y|
      invariant ApplyFrom(x, y, out[..], starts, ends, h, interp, k) == target
    {
      ApplyFromStep(x, y, out[..], starts, ends, h, interp, k);
      ApplySegmentInPlace(x, y, out, starts[k], ends[k], h, interp);
      k := k + 1;
    }
    output := out[..];
  }
}

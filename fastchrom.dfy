/** The post-pass of fastchrom, pybaselines/classification.py:665-689: while
    some peak segment still holds a stretch where the rough baseline lies
    above the data that is wider than min_fwhm, the lowest point of that
    segment (relative to the rough baseline) is made a baseline point and the
    rough baseline is interpolated again. */
module Fastchrom {
  import opened Masks
  import opened Segments
  import opened Interp
  import opened Results

  /** `np.argmin(data_section - baseline_section) + start`: the first index in
      [start, end] at which the data lies lowest relative to the rough baseline. */
  function Lowest(y: seq<real>, rough: seq<real>, start: int, end: int): (r: int)
    requires |y| == |rough| && 0 <= start <= end < |y|
    ensures start <= r <= end
    ensures forall j :: start <= j <= end ==> y[r] - rough[r] <= y[j] - rough[j]
    ensures forall j :: start <= j < r ==> y[r] - rough[r] < y[j] - rough[j]
    decreases end - start
  {
    if start == end then start
    else
      var rest := Lowest(y, rough, start + 1, end);
      if y[start] - rough[start] <= y[rest] - rough[rest] then start else rest
  }

  /** `baseline_section < data_section` over [start, end]. */
  function SectionMask(y: seq<real>, rough: seq<real>, start: int, end: int): (m: seq<bool>)
    requires |y| == |rough| && 0 <= start <= end < |y|
    ensures |m| == end + 1 - start
    ensures forall j :: 0 <= j < |m| ==> (m[j] <==> rough[start + j] < y[start + j])
  {
    seq(end + 1 - start, j requires 0 <= j < end + 1 - start => rough[start + j] < y[start + j])
  }

  /** `np.any(seg_ends - seg_starts > min_fwhm)`: the segment [start, end] holds
      a stretch of points where the rough baseline is not below the data, and
      that stretch, measured by its own peak segment, is wider than min_fwhm. */
  predicate Wide(y: seq<real>, rough: seq<real>, start: int, end: int, minFwhm: int)
    requires |y| == |rough| && 0 <= start <= end < |y|
  {
    var m := SectionMask(y, rough, start, end);
    exists k :: 0 <= k < |Starts(m)| && k < |Ends(m)| && Ends(m)[k] - Starts(m)[k] > minFwhm
  }

  /** Some segment is wide: the round sets modified_baseline (line 680). */
  predicate AnyWide(y: seq<real>, rough: seq<real>, starts: seq<int>, ends: seq<int>, minFwhm: int) {
    exists k :: 0 <= k < |starts| && k < |ends| && 0 <= starts[k] <= ends[k] < |y| == |rough| &&
                Wide(y, rough, starts[k], ends[k], minFwhm)
  }

  /** In a wide segment the point that becomes a baseline point lies on or
      below the rough baseline. */
  lemma WideLowestBelow(y: seq<real>, rough: seq<real>, start: int, end: int, minFwhm: int)
    requires |y| == |rough| && 0 <= start <= end < |y|
    requires Wide(y, rough, start, end, minFwhm)
    ensures y[Lowest(y, rough, start, end)] <= rough[Lowest(y, rough, start, end)]
  {
    var m := SectionMask(y, rough, start, end);
    if forall j :: 0 <= j < |m| ==> m[j] {
      AllBaselineNoSegments(m);
      assert false;
    }
    var j :| 0 <= j < |m| && !m[j];
    assert y[start + j] - rough[start + j] <= 0.0;
  }

  /** A segment where the rough baseline lies below the data everywhere is
      never wide. */
  lemma BelowDataNotWide(y: seq<real>, rough: seq<real>, start: int, end: int, minFwhm: int)
    requires |y| == |rough| && 0 <= start <= end < |y|
    requires forall j :: start <= j <= end ==> rough[j] < y[j]
    ensures !Wide(y, rough, start, end, minFwhm)
  {
    var m := SectionMask(y, rough, start, end);
    forall j | 0 <= j < |m| ensures m[j] {
      assert rough[start + j] < y[start + j];
    }
    AllBaselineNoSegments(m);
  }

  /** The cell that segment k sets in a round: its lowest point when it is
      wide, and -1 (no cell) otherwise. */
  function Pick(y: seq<real>, rough: seq<real>, starts: seq<int>, ends: seq<int>,
                minFwhm: int, k: int): (r: int)
    requires |y| == |rough| && SegmentsIn(starts, ends, |y|) && 0 <= k < |starts|
    ensures r == -1 || starts[k] <= r <= ends[k]
    ensures r != -1 <==> Wide(y, rough, starts[k], ends[k], minFwhm)
  {
    if Wide(y, rough, starts[k], ends[k], minFwhm) then Lowest(y, rough, starts[k], ends[k]) else -1
  }

  /** Cell i is set by one of the first n segments. */
  predicate MarkedBy(y: seq<real>, rough: seq<real>, starts: seq<int>, ends: seq<int>,
                     minFwhm: int, i: int, n: int)
    requires |y| == |rough| && SegmentsIn(starts, ends, |y|)
  {
    exists k :: 0 <= k < n && k < |starts| && Pick(y, rough, starts, ends, minFwhm, k) == i
  }

  /** Taking one more segment into account. */
  lemma MarkedByStep(y: seq<real>, rough: seq<real>, starts: seq<int>, ends: seq<int>,
                     minFwhm: int, i: int, k: int)
    requires |y| == |rough| && SegmentsIn(starts, ends, |y|) && 0 <= k < |starts|
    ensures MarkedBy(y, rough, starts, ends, minFwhm, i, k + 1) <==>
              MarkedBy(y, rough, starts, ends, minFwhm, i, k) ||
              Pick(y, rough, starts, ends, minFwhm, k) == i
  {
    if MarkedBy(y, rough, starts, ends, minFwhm, i, k + 1) {
      var j :| 0 <= j < k + 1 && j < |starts| && Pick(y, rough, starts, ends, minFwhm, j) == i;
      if j < k {
        assert MarkedBy(y, rough, starts, ends, minFwhm, i, k);
      }
    }
    if Pick(y, rough, starts, ends, minFwhm, k) == i {
      assert MarkedBy(y, rough, starts, ends, minFwhm, i, k + 1);
    }
  }

  /** The mask after one round over the segments: the cells of m, plus the
      lowest point of every wide segment (line 683). */
  function Marked(y: seq<real>, rough: seq<real>, m: seq<bool>, starts: seq<int>, ends: seq<int>,
                  minFwhm: int): (r: seq<bool>)
    requires |y| == |rough| == |m| && SegmentsIn(starts, ends, |y|)
    ensures |r| == |m|
  {
    seq(|m|, i requires 0 <= i < |m| => m[i] || MarkedBy(y, rough, starts, ends, minFwhm, i, |starts|))
  }

  /** A round sets the lowest point of each wide segment and no other new
      cell; so it only adds baseline points, each inside a segment, and it
      leaves the mask alone when no segment is wide. A wide segment whose
      lowest point is already a baseline point still counts as a change at
      line 680, although the mask stays the same. */
  lemma MarkedSetsLowest(y: seq<real>, rough: seq<real>, m: seq<bool>, starts: seq<int>,
                         ends: seq<int>, minFwhm: int)
    requires |y| == |rough| == |m| && SegmentsIn(starts, ends, |y|)
    ensures forall k :: 0 <= k < |starts| && Wide(y, rough, starts[k], ends[k], minFwhm) ==>
              Marked(y, rough, m, starts, ends, minFwhm)[Lowest(y, rough, starts[k], ends[k])]
    ensures forall i :: 0 <= i < |m| && Marked(y, rough, m, starts, ends, minFwhm)[i] && !m[i] ==>
              exists k :: 0 <= k < |starts| && Wide(y, rough, starts[k], ends[k], minFwhm) &&
                          Lowest(y, rough, starts[k], ends[k]) == i
    ensures forall i :: 0 <= i < |m| && m[i] ==> Marked(y, rough, m, starts, ends, minFwhm)[i]
    ensures forall i :: 0 <= i < |m| && Marked(y, rough, m, starts, ends, minFwhm)[i] && !m[i] ==>
              InSegment(starts, ends, i, 0)
    ensures !AnyWide(y, rough, starts, ends, minFwhm) ==> Marked(y, rough, m, starts, ends, minFwhm) == m
  {
    var r := Marked(y, rough, m, starts, ends, minFwhm);
    forall k | 0 <= k < |starts| && Wide(y, rough, starts[k], ends[k], minFwhm)
      ensures r[Lowest(y, rough, starts[k], ends[k])]
    {
      assert Pick(y, rough, starts, ends, minFwhm, k) == Lowest(y, rough, starts[k], ends[k]);
      assert MarkedBy(y, rough, starts, ends, minFwhm, Lowest(y, rough, starts[k], ends[k]), |starts|);
    }
    forall i | 0 <= i < |m| && r[i] && !m[i]
      ensures exists k :: 0 <= k < |starts| && Wide(y, rough, starts[k], ends[k], minFwhm) &&
                          Lowest(y, rough, starts[k], ends[k]) == i
      ensures InSegment(starts, ends, i, 0)
    {
      var k :| 0 <= k < |starts| && Pick(y, rough, starts, ends, minFwhm, k) == i;
      assert starts[k] <= i <= ends[k];
    }
    if !AnyWide(y, rough, starts, ends, minFwhm) {
      forall i | 0 <= i < |m| ensures r[i] == m[i] {
        if r[i] && !m[i] {
          assert false;
        }
      }
    }
  }

  /** One round of the post-pass over the segments of the initial mask: the
      lowest point of every wide segment becomes a baseline point. */
  method MarkRound(y: seq<real>, rough: seq<real>, m: array<bool>,
                   starts: seq<int>, ends: seq<int>, minFwhm: int)
      returns (modified: bool)
    requires |y| == |rough| == m.Length && SegmentsIn(starts, ends, |y|)
    modifies m
    ensures m[..] == Marked(y, rough, old(m[..]), starts, ends, minFwhm)
    ensures modified <==> AnyWide(y, rough, starts, ends, minFwhm)
  {
    ghost var m0 := m[..];
    modified := false;
    var k := 0;
    while k < |starts|
      invariant 0 <= k <= |starts|
      invariant forall i :: 0 <= i < m.Length ==>
                  (m[i] <==> m0[i] || MarkedBy(y, rough, starts, ends, minFwhm, i, k))
      invariant modified <==> exists j :: 0 <= j < k && Wide(y, rough, starts[j], ends[j], minFwhm)
    {
      forall i | 0 <= i < m.Length {
        MarkedByStep(y, rough, starts, ends, minFwhm, i, k);
      }
      if Wide(y, rough, starts[k], ends[k], minFwhm) {
        modified := true;
        var low := Lowest(y, rough, starts[k], ends[k]);
        m[low] := true;
      }
      k := k + 1;
    }
    assert m[..] == Marked(y, rough, m0, starts, ends, minFwhm);
  }

  /** `_averaged_interp(x, y, mask, interp_half_window)` as a function of the
      mask; a mask of another length, which the post-pass never passes, gives
      the data. */
  function RoughOf(x: seq<real>, y: seq<real>, h: nat, interp: Interpolator): seq<bool> -> seq<real>
    requires |x| == |y| && KeepsLength(interp)
  {
    (m: seq<bool>) => if |m| == |y| then Interpolated(x, y, m, h, interp) else y
  }

  /** RoughOf gives the rough baseline of every mask of |y| points. */
  lemma RoughOfIsInterpolated(x: seq<real>, y: seq<real>, h: nat, interp: Interpolator)
    requires |x| == |y| && KeepsLength(interp)
    ensures forall mm {:trigger Interpolated(x, y, mm, h, interp)} :: |mm| == |y| ==>
              RoughOf(x, y, h, interp)(mm) == Interpolated(x, y, mm, h, interp)
  {
  }

  /** A round as a step: from the mask and its rough baseline, the marked
      mask, or None when the round would not set modified_baseline. */
  type RoundStep = (seq<bool>, seq<real>) -> Option<seq<bool>>

  /** Lines 671-683 as a step. Arguments of another length, which the
      post-pass never passes, end the rounds. */
  function RoundOf(y: seq<real>, starts: seq<int>, ends: seq<int>, minFwhm: int): RoundStep {
    (m: seq<bool>, rough: seq<real>) =>
      if |m| == |y| && |rough| == |y| && SegmentsIn(starts, ends, |y|) &&
         AnyWide(y, rough, starts, ends, minFwhm)
      then Some(Marked(y, rough, m, starts, ends, minFwhm))
      else None
  }

  /** round is the step of lines 671-683 on masks and rough baselines of |y|
      points. */
  ghost predicate IsRound(round: RoundStep, y: seq<real>, starts: seq<int>, ends: seq<int>, minFwhm: int)
    requires SegmentsIn(starts, ends, |y|)
  {
    forall m: seq<bool>, rough: seq<real> {:trigger Marked(y, rough, m, starts, ends, minFwhm)} ::
      |m| == |y| && |rough| == |y| ==>
        round(m, rough) == if AnyWide(y, rough, starts, ends, minFwhm)
                           then Some(Marked(y, rough, m, starts, ends, minFwhm)) else None
  }

  /** RoundOf is that step. */
  lemma RoundOfIsRound(y: seq<real>, starts: seq<int>, ends: seq<int>, minFwhm: int)
    requires SegmentsIn(starts, ends, |y|)
    ensures IsRound(RoundOf(y, starts, ends, minFwhm), y, starts, ends, minFwhm)
  {
  }

  /** The rounds still to run from mask m, with `left` rounds of max_iter
      left: the final mask and the number of rounds that re-interpolated.
      rebuild gives the rough baseline of a mask and round one pass over the
      segments; the loop stops at the first pass that does not set
      modified_baseline (line 689). */
  function PostPass(rebuild: seq<bool> -> seq<real>, round: RoundStep, m: seq<bool>, left: int): (r: (seq<bool>, nat))
    decreases left
  {
    if left <= 0 then (m, 0)
    else
      match round(m, rebuild(m))
      case None => (m, 0)
      case Some(next) =>
        var rest := PostPass(rebuild, round, next, left - 1);
        (rest.0, rest.1 + 1)
  }

  /** A round that runs is followed by the rounds from its marked mask. */
  lemma PostPassSome(rebuild: seq<bool> -> seq<real>, round: RoundStep, m: seq<bool>, next: seq<bool>,
                     left: int)
    requires left > 0 && round(m, rebuild(m)) == Some(next)
    ensures PostPass(rebuild, round, m, left).0 == PostPass(rebuild, round, next, left - 1).0
    ensures PostPass(rebuild, round, m, left).1 == PostPass(rebuild, round, next, left - 1).1 + 1
  {
  }

  /** The rounds end when max_iter is used up or a round would not run. */
  lemma PostPassNone(rebuild: seq<bool> -> seq<real>, round: RoundStep, m: seq<bool>, left: int)
    requires left <= 0 || round(m, rebuild(m)) == None
    ensures PostPass(rebuild, round, m, left) == (m, 0)
  {
  }

  /** The remaining rounds run at most `left` times, keep the length, only add
      baseline points, each inside a segment, and when they stop early no
      segment is wide any more for the final rough baseline. */
  lemma {:induction false} PostPassSpec(y: seq<real>, rebuild: seq<bool> -> seq<real>, round: RoundStep,
                                        m: seq<bool>, starts: seq<int>, ends: seq<int>, minFwhm: int,
                                        left: int)
    requires |y| == |m| && SegmentsIn(starts, ends, |y|) && IsRound(round, y, starts, ends, minFwhm)
    requires forall mm: seq<bool> :: |mm| == |y| ==> |rebuild(mm)| == |y|
    ensures var r := PostPass(rebuild, round, m, left);
            && |r.0| == |m|
            && r.1 <= Max(left, 0)
            && (forall i :: 0 <= i < |m| && m[i] ==> r.0[i])
            && (forall i :: 0 <= i < |m| && r.0[i] && !m[i] ==> InSegment(starts, ends, i, 0))
            && (r.1 < left ==> !AnyWide(y, rebuild(r.0), starts, ends, minFwhm))
    decreases left
  {
    if left > 0 && AnyWide(y, rebuild(m), starts, ends, minFwhm) {
      var rough := rebuild(m);
      var next := Marked(y, rough, m, starts, ends, minFwhm);
      MarkedSetsLowest(y, rough, m, starts, ends, minFwhm);
      PostPassSome(rebuild, round, m, next, left);
      PostPassSpec(y, rebuild, round, next, starts, ends, minFwhm, left - 1);
    } else {
      if left > 0 {
        assert round(m, rebuild(m)) == None by {
          MarkedSetsLowest(y, rebuild(m), m, starts, ends, minFwhm);
        }
      }
      PostPassNone(rebuild, round, m, left);
    }
  }

  /** The whole post-pass of lines 665-689 from the combined mask mask0: no
      round runs unless the mask holds both baseline and peak points. */
  function FastchromMask(x: seq<real>, y: seq<real>, mask0: seq<bool>, h: nat,
                         interp: Interpolator, maxIter: int, minFwhm: int): (r: (seq<bool>, nat))
    requires |x| == |y| == |mask0| && KeepsLength(interp)
    ensures |r.0| == |mask0|
  {
    var c := CountTrue(mask0);
    if c == 0 || c == |mask0| then (mask0, 0)
    else
      SegmentsOfMask(mask0);
      RoundOfIsRound(y, Starts(mask0), Ends(mask0), minFwhm);
      PostPassSpec(y, RoughOf(x, y, h, interp), RoundOf(y, Starts(mask0), Ends(mask0), minFwhm),
                   mask0, Starts(mask0), Ends(mask0), minFwhm, maxIter);
      PostPass(RoughOf(x, y, h, interp), RoundOf(y, Starts(mask0), Ends(mask0), minFwhm), mask0, maxIter)
  }

  /** The post-pass runs at most max_iter rounds; it
      keeps every point of mask0 and adds baseline points only inside peak
      segments of mask0; it leaves a mask without baseline or without peak
      points alone; and when it stops before max_iter rounds, no segment is
      wide for the final rough baseline. */
  lemma FastchromMaskSpec(x: seq<real>, y: seq<real>, mask0: seq<bool>, h: nat,
                          interp: Interpolator, maxIter: int, minFwhm: int)
    requires |x| == |y| == |mask0| && KeepsLength(interp)
    ensures var r := FastchromMask(x, y, mask0, h, interp, maxIter, minFwhm);
            && r.1 <= Max(maxIter, 0)
            && (forall i :: 0 <= i < |mask0| && mask0[i] ==> r.0[i])
            && (forall i :: 0 <= i < |mask0| && r.0[i] && !mask0[i] ==>
                  InSegment(Starts(mask0), Ends(mask0), i, 0))
            && (CountTrue(mask0) == 0 || CountTrue(mask0) == |mask0| ==> r == (mask0, 0))
            && (0 < CountTrue(mask0) < |mask0| && r.1 < maxIter ==>
                  !AnyWide(y, Interpolated(x, y, r.0, h, interp), Starts(mask0), Ends(mask0), minFwhm))
  {
    SegmentsOfMask(mask0);
    RoundOfIsRound(y, Starts(mask0), Ends(mask0), minFwhm);
    PostPassSpec(y, RoughOf(x, y, h, interp), RoundOf(y, Starts(mask0), Ends(mask0), minFwhm),
                 mask0, Starts(mask0), Ends(mask0), minFwhm, maxIter);
  }

  /** MarkRound seen as the step round: it reports whether the round ran, and
      leaves the mask the step gives. */
  method RoundInPlace(y: seq<real>, rough: seq<real>, m: array<bool>, ghost round: RoundStep,
                      starts: seq<int>, ends: seq<int>, minFwhm: int)
      returns (modified: bool)
    requires |y| == |rough| == m.Length && SegmentsIn(starts, ends, |y|)
    requires IsRound(round, y, starts, ends, minFwhm)
    modifies m
    ensures modified ==> round(old(m[..]), rough) == Some(m[..])
    ensures !modified ==> round(old(m[..]), rough) == None && m[..] == old(m[..])
  {
    ghost var before := m[..];
    modified := MarkRound(y, rough, m, starts, ends, minFwhm);
    assert m[..] == Marked(y, rough, before, starts, ends, minFwhm);
    if !modified {
      MarkedSetsLowest(y, rough, before, starts, ends, minFwhm);
    }
  }

  /** Lines 670-689: the rounds of the post-pass on the mask array m, whose
      rough baseline is rough0. rebuild stands for `_averaged_interp` and
      round for one pass over the segments. */
  method PostPassRounds(x: seq<real>, y: seq<real>, m: array<bool>, rough0: seq<real>, h: nat,
                        interp: Interpolator, ghost rebuild: seq<bool> -> seq<real>,
                        ghost round: RoundStep,
                        starts: seq<int>, ends: seq<int>, maxIter: int, minFwhm: int)
      returns (rough: seq<real>, rounds: nat)
    requires |x| == |y| == m.Length && KeepsLength(interp) && SegmentsIn(starts, ends, |y|)
    requires forall mm {:trigger Interpolated(x, y, mm, h, interp)} :: |mm| == |y| ==>
               rebuild(mm) == Interpolated(x, y, mm, h, interp)
    requires IsRound(round, y, starts, ends, minFwhm)
    requires rough0 == Interpolated(x, y, m[..], h, interp)
    modifies m
    ensures (m[..], rounds) == PostPass(rebuild, round, old(m[..]), maxIter)
    ensures rough == Interpolated(x, y, m[..], h, interp)
  {
    rough := rough0;
    assert rough == rebuild(m[..]);
    rounds := 0;
    ghost var cur := m[..];
    ghost var total := PostPass(rebuild, round, cur, maxIter);
    var it := 0;
    while it < maxIter
      invariant rounds == it && m.Length == |y| && cur == m[..]
      invariant rough == rebuild(cur) && |rough| == |y|
      invariant PostPass(rebuild, round, cur, maxIter - it).0 == total.0
      invariant PostPass(rebuild, round, cur, maxIter - it).1 + rounds == total.1
    {
      var modified := RoundInPlace(y, rough, m, round, starts, ends, minFwhm);
      if modified {
        PostPassSome(rebuild, round, cur, m[..], maxIter - it);
        cur := m[..];
        var warning;
        rough, warning := AveragedInterp(x, y, m[..], h, interp);
        rounds := rounds + 1;
        it := it + 1;
      } else {
        break;
      }
    }
    PostPassNone(rebuild, round, cur, maxIter - it);
    assert total.0 == m[..] && total.1 == rounds;
    assert rebuild(m[..]) == Interpolated(x, y, m[..], h, interp);
  }

  /** The post-pass. It starts from the combined mask mask0 (line 663), and
      returns the final mask, the matching rough baseline and the number of
      rounds that re-interpolated the rough baseline. */
  method FastchromRefine(x: seq<real>, y: seq<real>, mask0: seq<bool>, h: nat,
                         interp: Interpolator, maxIter: int, minFwhm: int)
      returns (mask: seq<bool>, rough: seq<real>, rounds: nat)
    requires |x| == |y| == |mask0| && KeepsLength(interp)
    ensures (mask, rounds) == FastchromMask(x, y, mask0, h, interp, maxIter, minFwhm)
    ensures rough == Interpolated(x, y, mask, h, interp)
  {
    var warning;
    rough, warning := AveragedInterp(x, y, mask0, h, interp);
    var m := new bool[|mask0|](i requires 0 <= i < |mask0| => mask0[i]);
    assert m[..] == mask0;
    rounds := 0;
    var maskSum := CountTrue(mask0);
    if maskSum != 0 && maskSum != |mask0| {
      SegmentsOfMask(mask0);
      RoundOfIsRound(y, Starts(mask0), Ends(mask0), minFwhm);
      RoughOfIsInterpolated(x, y, h, interp);
      rough, rounds := PostPassRounds(x, y, m, rough, h, interp, RoughOf(x, y, h, interp),
                                      RoundOf(y, Starts(mask0), Ends(mask0), minFwhm),
                                      Starts(mask0), Ends(mask0), maxIter, minFwhm);
    }
    mask := m[..];
  }
}

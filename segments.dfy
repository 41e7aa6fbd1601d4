/** Peak segments of a mask, pybaselines/classification.py:54-83: one
    (start, end) pair per maximal run of False (peak) points, widened by one
    index on each side where the mask allows it. */
module Segments {

  /** i begins a maximal False run (the mask is read as padded by True). */
  predicate IsRunStart(m: seq<bool>, i: int) {
    0 <= i < |m| && !m[i] && (i == 0 || m[i - 1])
  }

  /** i ends a maximal False run. */
  predicate IsRunEnd(m: seq<bool>, i: int) {
    0 <= i < |m| && !m[i] && (i == |m| - 1 || m[i + 1])
  }

  /** [a, b] is a maximal run of False. */
  predicate IsRun(m: seq<bool>, a: int, b: int) {
    0 <= a <= b < |m| && IsRunStart(m, a) && IsRunEnd(m, b)
    && forall x :: a <= x <= b ==> !m[x]
  }

  /** `np.flatnonzero(extended_mask[1:-1] < extended_mask[:-2])` from index i on. */
  function RawStartsFrom(m: seq<bool>, i: nat): seq<int>
    decreases |m| - i
  {
    if i >= |m| then []
    else (if IsRunStart(m, i) then [i] else []) + RawStartsFrom(m, i + 1)
  }

  /** `np.flatnonzero(extended_mask[1:-1] < extended_mask[2:])` from index i on. */
  function RawEndsFrom(m: seq<bool>, i: nat): seq<int>
    decreases |m| - i
  {
    if i >= |m| then []
    else (if IsRunEnd(m, i) then [i] else []) + RawEndsFrom(m, i + 1)
  }

  function Shift(s: seq<int>, d: int): (r: seq<int>)
    ensures |r| == |s| && forall k :: 0 <= k < |s| ==> r[k] == s[k] + d
  {
    seq(|s|, k requires 0 <= k < |s| => s[k] + d)
  }

  /** `peak_starts[1 if peak_starts[0] == 0 else 0:] -= 1` */
  function AdjustStarts(s: seq<int>): seq<int> {
    if |s| == 0 then s
    else if s[0] == 0 then [s[0]] + Shift(s[1..], -1)
    else Shift(s, -1)
  }

  /** `peak_ends[:-1 if peak_ends[-1] == n - 1 else None] += 1` */
  function AdjustEnds(e: seq<int>, n: int): seq<int> {
    if |e| == 0 then e
    else if e[|e| - 1] == n - 1 then Shift(e[..|e| - 1], 1) + [e[|e| - 1]]
    else Shift(e, 1)
  }

  /** _find_peak_segments: the peak starts and the peak ends. */
  function FindPeakSegments(m: seq<bool>): (seq<int>, seq<int>) {
    (AdjustStarts(RawStartsFrom(m, 0)), AdjustEnds(RawEndsFrom(m, 0), |m|))
  }

  function Starts(m: seq<bool>): seq<int> { FindPeakSegments(m).0 }
  function Ends(m: seq<bool>): seq<int> { FindPeakSegments(m).1 }

  // ------------------------------------------------------------------
  // Pairing of the raw starts with the raw ends

  /** The last index of the False run that contains i. */
  function RunEnd(m: seq<bool>, i: nat): (j: nat)
    requires i < |m| && !m[i]
    ensures i <= j < |m| && IsRunEnd(m, j)
    ensures forall x :: i <= x <= j ==> !m[x]
    decreases |m| - i
  {
    if i == |m| - 1 || m[i + 1] then i else RunEnd(m, i + 1)
  }

  lemma {:induction false} RawStartsMembers(m: seq<bool>, i: nat)
    ensures forall x :: x in RawStartsFrom(m, i) <==> i <= x && IsRunStart(m, x)
    decreases |m| - i
  {
    if i < |m| { RawStartsMembers(m, i + 1); }
  }

  lemma {:induction false} RawStartsAbove(m: seq<bool>, i: nat)
    ensures forall k :: 0 <= k < |RawStartsFrom(m, i)| ==> i <= RawStartsFrom(m, i)[k]
    decreases |m| - i
  {
    if i < |m| { RawStartsAbove(m, i + 1); }
  }

  lemma {:induction false} StartsSkip(m: seq<bool>, a: nat, j: nat)
    requires 0 < a <= j + 1 <= |m|
    requires forall x :: a - 1 <= x <= j ==> !m[x]
    ensures RawStartsFrom(m, a) == RawStartsFrom(m, j + 1)
    decreases j + 1 - a
  {
    if a < j + 1 {
      assert !IsRunStart(m, a);
      StartsSkip(m, a + 1, j);
    }
  }

  lemma {:induction false} EndsSkip(m: seq<bool>, a: nat, j: nat)
    requires a <= j < |m| && IsRunEnd(m, j)
    requires forall x :: a <= x <= j ==> !m[x]
    ensures RawEndsFrom(m, a) == [j] + RawEndsFrom(m, j + 1)
    decreases j - a
  {
    if a < j {
      assert !IsRunEnd(m, a);
      EndsSkip(m, a + 1, j);
    }
  }

  /** The k-th start and the k-th end bound the k-th maximal run, in order. */
  predicate Paired(m: seq<bool>, rs: seq<int>, re: seq<int>) {
    && |rs| == |re|
    && (forall k :: 0 <= k < |rs| ==> IsRun(m, rs[k], re[k]))
    && (forall k :: 0 <= k < |rs| - 1 ==> re[k] < rs[k + 1])
  }

  lemma PairedCons(m: seq<bool>, a: int, b: int, rs: seq<int>, re: seq<int>)
    requires IsRun(m, a, b) && Paired(m, rs, re)
    requires |rs| > 0 ==> b < rs[0]
    ensures Paired(m, [a] + rs, [b] + re)
  {
    var rs', re' := [a] + rs, [b] + re;
    forall k | 0 <= k < |rs'| ensures IsRun(m, rs'[k], re'[k]) {
      if k > 0 { assert rs'[k] == rs[k - 1] && re'[k] == re[k - 1]; }
    }
    forall k | 0 <= k < |rs'| - 1 ensures re'[k] < rs'[k + 1] {
      if k > 0 { assert re'[k] == re[k - 1] && rs'[k + 1] == rs[k]; }
    }
  }

  /** A run [i, j] contributes i to the raw starts and j to the raw ends. */
  lemma RawStep(m: seq<bool>, i: nat, j: nat)
    requires i <= j < |m| && IsRunStart(m, i) && IsRunEnd(m, j)
    requires forall x :: i <= x <= j ==> !m[x]
    ensures RawStartsFrom(m, i) == [i] + RawStartsFrom(m, j + 1)
    ensures RawEndsFrom(m, i) == [j] + RawEndsFrom(m, j + 1)
  {
    if i < j { StartsSkip(m, i + 1, j); }
    EndsSkip(m, i, j);
  }

  /** A baseline point adds neither a start nor an end. */
  lemma RawSkipBaseline(m: seq<bool>, i: nat)
    requires i < |m| && m[i]
    ensures RawStartsFrom(m, i) == RawStartsFrom(m, i + 1)
    ensures RawEndsFrom(m, i) == RawEndsFrom(m, i + 1)
  {
    assert !IsRunStart(m, i) && !IsRunEnd(m, i);
  }

  /** A run [i, j] in front of paired starts and ends keeps them paired. */
  lemma RawPairingRun(m: seq<bool>, i: nat, j: nat)
    requires i <= j < |m| && IsRunStart(m, i) && IsRunEnd(m, j)
    requires forall x :: i <= x <= j ==> !m[x]
    requires Paired(m, RawStartsFrom(m, j + 1), RawEndsFrom(m, j + 1))
    ensures Paired(m, RawStartsFrom(m, i), RawEndsFrom(m, i))
  {
    RawStep(m, i, j);
    RawStartsAbove(m, j + 1);
    PairedCons(m, i, j, RawStartsFrom(m, j + 1), RawEndsFrom(m, j + 1));
  }

  /** Scanning from a point that is not inside a False run begun earlier, the
      raw starts and the raw ends pair up into the maximal runs, in order. */
  lemma {:induction false} RawPairing(m: seq<bool>, i: nat)
    requires i <= |m| && (i == 0 || i == |m| || m[i - 1] || m[i])
    ensures Paired(m, RawStartsFrom(m, i), RawEndsFrom(m, i))
    decreases |m| - i
  {
    if i == |m| {
    } else if m[i] {
      RawPairing(m, i + 1);
      RawSkipBaseline(m, i);
    } else {
      var j := RunEnd(m, i);
      RawPairing(m, j + 1);
      RawPairingRun(m, i, j);
    }
  }

  /** A maximal run is determined by its first index. */
  lemma RunUnique(m: seq<bool>, a: int, b: int, b': int)
    requires IsRun(m, a, b) && IsRun(m, a, b')
    ensures b == b'
  {
  }

  predicate Increasing(s: seq<int>) {
    forall k, l :: 0 <= k < l < |s| ==> s[k] < s[l]
  }

  lemma {:induction false} AdjacentIncreasing(s: seq<int>)
    requires forall k :: 0 <= k < |s| - 1 ==> s[k] < s[k + 1]
    ensures Increasing(s)
  {
    if |s| > 1 {
      AdjacentIncreasing(s[1..]);
      forall k, l | 0 <= k < l < |s| ensures s[k] < s[l] {
        if k > 0 {
          assert s[k] == s[1..][k - 1] && s[l] == s[1..][l - 1];
        } else if l > 1 {
          assert s[l] == s[1..][l - 1] && s[1] == s[1..][0];
        }
      }
    }
  }

  lemma PairedIncreasing(m: seq<bool>, rs: seq<int>, re: seq<int>)
    requires Paired(m, rs, re)
    ensures Increasing(rs) && Increasing(re)
  {
    forall k | 0 <= k < |rs| - 1 ensures rs[k] < rs[k + 1] && re[k] < re[k + 1] {
      assert IsRun(m, rs[k], re[k]) && IsRun(m, rs[k + 1], re[k + 1]);
    }
    AdjacentIncreasing(rs);
    AdjacentIncreasing(re);
  }

  lemma AdjustStartsAt(s: seq<int>)
    requires Increasing(s) && forall k :: 0 <= k < |s| ==> s[k] >= 0
    ensures |AdjustStarts(s)| == |s|
    ensures forall k :: 0 <= k < |s| ==> AdjustStarts(s)[k] == if s[k] == 0 then 0 else s[k] - 1
  {
    if |s| > 0 && s[0] == 0 {
      var r := AdjustStarts(s);
      forall k | 0 < k < |s| ensures r[k] == s[k] - 1 && s[k] != 0 {
        assert r[k] == Shift(s[1..], -1)[k - 1];
        assert s[0] < s[k];
      }
    }
  }

  lemma AdjustEndsAt(e: seq<int>, n: int)
    requires Increasing(e) && forall k :: 0 <= k < |e| ==> e[k] < n
    ensures |AdjustEnds(e, n)| == |e|
    ensures forall k :: 0 <= k < |e| ==> AdjustEnds(e, n)[k] == if e[k] == n - 1 then e[k] else e[k] + 1
  {
    if |e| > 0 && e[|e| - 1] == n - 1 {
      var r := AdjustEnds(e, n);
      forall k | 0 <= k < |e| - 1 ensures r[k] == e[k] + 1 && e[k] != n - 1 {
        assert r[k] == Shift(e[..|e| - 1], 1)[k];
        assert e[k] < e[|e| - 1];
      }
    }
  }

  // ------------------------------------------------------------------
  // Properties of the result

  /** (a, b) is one of the listed pairs. */
  predicate Listed(rs: seq<int>, re: seq<int>, a: int, b: int) {
    exists k :: 0 <= k < |rs| && k < |re| && rs[k] == a && re[k] == b
  }

  /** The raw starts and ends list every maximal False run exactly once. */
  lemma RawRunsComplete(m: seq<bool>)
    ensures Paired(m, RawStartsFrom(m, 0), RawEndsFrom(m, 0))
    ensures forall a, b :: IsRun(m, a, b) ==> Listed(RawStartsFrom(m, 0), RawEndsFrom(m, 0), a, b)
  {
    var rs, re := RawStartsFrom(m, 0), RawEndsFrom(m, 0);
    RawPairing(m, 0);
    RawStartsMembers(m, 0);
    forall a, b | IsRun(m, a, b) ensures Listed(rs, re, a, b) {
      assert IsRunStart(m, a);
      assert a in rs;
      var k :| 0 <= k < |rs| && rs[k] == a;
      assert IsRun(m, a, re[k]);
      RunUnique(m, a, b, re[k]);
      assert re[k] == b;
    }
  }

  /** The result pairs up the maximal False runs, in order, one pair per run:
      the start is the index before the run (0 if the run begins at 0), the end
      the index after it (|m|-1 if the run ends there). */
  lemma PeakSegmentsRuns(m: seq<bool>)
    ensures Paired(m, RawStartsFrom(m, 0), RawEndsFrom(m, 0))
    ensures |Starts(m)| == |Ends(m)| == |RawStartsFrom(m, 0)|
    ensures forall k :: 0 <= k < |Starts(m)| ==>
              && Starts(m)[k] == (if RawStartsFrom(m, 0)[k] == 0 then 0 else RawStartsFrom(m, 0)[k] - 1)
              && Ends(m)[k] == (if RawEndsFrom(m, 0)[k] == |m| - 1 then RawEndsFrom(m, 0)[k]
                                else RawEndsFrom(m, 0)[k] + 1)
  {
    var rs, re := RawStartsFrom(m, 0), RawEndsFrom(m, 0);
    RawPairing(m, 0);
    PairedIncreasing(m, rs, re);
    forall k | 0 <= k < |rs| ensures rs[k] >= 0 && re[k] < |m| {
      assert IsRun(m, rs[k], re[k]);
    }
    AdjustStartsAt(rs);
    AdjustEndsAt(re, |m|);
  }

  /** Every segment lies in [0, |m|), starts no later than it ends, and
      strictly before it when the mask has two or more points. */
  lemma SegmentBounds(m: seq<bool>)
    ensures |Starts(m)| == |Ends(m)|
    ensures forall k :: 0 <= k < |Starts(m)| ==> 0 <= Starts(m)[k] <= Ends(m)[k] < |m|
    ensures |m| >= 2 ==> forall k :: 0 <= k < |Starts(m)| ==> Starts(m)[k] < Ends(m)[k]
  {
    PeakSegmentsRuns(m);
    var rs, re := RawStartsFrom(m, 0), RawEndsFrom(m, 0);
    forall k | 0 <= k < |Starts(m)|
      ensures 0 <= Starts(m)[k] <= Ends(m)[k] < |m|
      ensures |m| >= 2 ==> Starts(m)[k] < Ends(m)[k]
    {
      assert IsRun(m, rs[k], re[k]);
    }
  }

  /** Every index strictly between a start and its end is a peak point. */
  lemma SegmentInterior(m: seq<bool>)
    ensures |Starts(m)| == |Ends(m)|
    ensures forall k :: 0 <= k < |Starts(m)| ==> 0 <= Starts(m)[k] && Ends(m)[k] < |m|
    ensures forall k, x :: 0 <= k < |Starts(m)| && Starts(m)[k] < x < Ends(m)[k] ==> !m[x]
  {
    SegmentBounds(m);
    PeakSegmentsRuns(m);
    var rs, re := RawStartsFrom(m, 0), RawEndsFrom(m, 0);
    forall k, x | 0 <= k < |Starts(m)| && Starts(m)[k] < x < Ends(m)[k] ensures !m[x] {
      assert IsRun(m, rs[k], re[k]);
    }
  }

  /** Starts and ends are strictly increasing, and a segment ends no later
      than the next one starts. */
  lemma SegmentOrder(m: seq<bool>)
    ensures |Starts(m)| == |Ends(m)|
    ensures Increasing(Starts(m)) && Increasing(Ends(m))
    ensures forall k :: 0 <= k < |Starts(m)| - 1 ==> Ends(m)[k] <= Starts(m)[k + 1]
  {
    PeakSegmentsRuns(m);
    var s, e := Starts(m), Ends(m);
    var rs, re := RawStartsFrom(m, 0), RawEndsFrom(m, 0);
    forall k | 0 <= k < |s| - 1 ensures s[k] < s[k + 1] && e[k] < e[k + 1] && e[k] <= s[k + 1] {
      assert IsRun(m, rs[k], re[k]) && IsRun(m, rs[k + 1], re[k + 1]);
      assert re[k] < rs[k + 1];
    }
    AdjacentIncreasing(s);
    AdjacentIncreasing(e);
  }

  lemma {:induction false} NoRawRuns(m: seq<bool>, i: nat)
    requires forall x :: 0 <= x < |m| ==> m[x]
    ensures RawStartsFrom(m, i) == [] && RawEndsFrom(m, i) == []
    decreases |m| - i
  {
    if i < |m| { NoRawRuns(m, i + 1); }
  }

  /** A mask with no False has no segments; one with no True has the single
      segment (0, |m|-1). */
  lemma AllBaselineNoSegments(m: seq<bool>)
    requires forall i :: 0 <= i < |m| ==> m[i]
    ensures Starts(m) == [] && Ends(m) == []
  {
    NoRawRuns(m, 0);
  }

  lemma AllPeakOneSegment(m: seq<bool>)
    requires |m| > 0 && forall i :: 0 <= i < |m| ==> !m[i]
    ensures Starts(m) == [0] && Ends(m) == [|m| - 1]
  {
    StartsSkip(m, 1, |m| - 1);
    assert IsRunStart(m, 0);
    assert RawStartsFrom(m, 0) == [0];
    EndsSkip(m, 0, |m| - 1);
    assert RawEndsFrom(m, 0) == [|m| - 1];
  }
}

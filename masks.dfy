/** Boolean baseline/peak masks: the morphological helpers the classifiers use
    (binary erosion and dilation with a border value of False, as SciPy applies
    them) and the removal of lone points, pybaselines/classification.py:27-51.
    A mask holds True for a baseline point and False for a peak point. */
module Masks {

  /** The element at i, or False when i lies outside the mask. */
  function At(m: seq<bool>, i: int): bool {
    0 <= i < |m| && m[i]
  }

  /** Elementwise or / and of two masks of the same length. */
  function Or(a: seq<bool>, b: seq<bool>): (r: seq<bool>)
    requires |a| == |b|
    ensures |r| == |a|
    ensures forall i :: 0 <= i < |r| ==> (r[i] <==> a[i] || b[i])
  {
    seq(|a|, i requires 0 <= i < |a| => a[i] || b[i])
  }

  function And(a: seq<bool>, b: seq<bool>): (r: seq<bool>)
    requires |a| == |b|
    ensures |r| == |a|
    ensures forall i :: 0 <= i < |r| ==> (r[i] <==> a[i] && b[i])
  {
    seq(|a|, i requires 0 <= i < |a| => a[i] && b[i])
  }

  /** Elementwise negation, `~m`. */
  function Not(m: seq<bool>): (r: seq<bool>)
    ensures |r| == |m|
    ensures forall i :: 0 <= i < |r| ==> (r[i] <==> !m[i])
  {
    seq(|m|, i requires 0 <= i < |m| => !m[i])
  }

  /** A structuring element of odd length whose centre is its middle element. */
  predicate IsStructure(s: seq<bool>) {
    |s| % 2 == 1
  }

  /** Whether every cell the structure selects around i holds True; cells
      outside the mask count as False (the border value of binary_erosion). */
  predicate Fits(m: seq<bool>, s: seq<bool>, i: int)
    requires IsStructure(s)
  {
    forall k :: 0 <= k < |s| && s[k] ==> At(m, i + k - |s| / 2)
  }

  /** Binary erosion of m by the structure s with border value False. */
  function Erode(m: seq<bool>, s: seq<bool>): (r: seq<bool>)
    requires IsStructure(s)
    ensures |r| == |m|
    ensures forall i :: 0 <= i < |m| ==> (r[i] <==> Fits(m, s, i))
  {
    seq(|m|, i requires 0 <= i < |m| => Fits(m, s, i))
  }

  /** A full window of width 2h+1, `np.ones(2 * h + 1)`. */
  function Ones(h: nat): (s: seq<bool>)
    ensures |s| == 2 * h + 1 && IsStructure(s)
    ensures forall k :: 0 <= k < |s| ==> s[k]
  {
    seq(2 * h + 1, k => true)
  }

  /** Whether some True lies within distance h of i. */
  predicate Hits(m: seq<bool>, h: nat, i: int) {
    exists j :: i - h <= j <= i + h && At(m, j)
  }

  /** Binary dilation of m by a full window of half-width h, border value False. */
  function DilateWindow(m: seq<bool>, h: nat): (r: seq<bool>)
    ensures |r| == |m|
    ensures forall i :: 0 <= i < |m| ==> (r[i] <==> Hits(m, h, i))
  {
    seq(|m|, i requires 0 <= i < |m| => Hits(m, h, i))
  }

  lemma ErodeOnesAt(m: seq<bool>, h: nat, i: int)
    requires 0 <= i < |m|
    ensures Erode(m, Ones(h))[i] <==> forall j :: i - h <= j <= i + h ==> At(m, j)
  {
    var s := Ones(h);
    if Erode(m, s)[i] {
      forall j | i - h <= j <= i + h ensures At(m, j) {
        assert s[j - i + h];
      }
    } else {
      var k :| 0 <= k < |s| && s[k] && !At(m, i + k - |s| / 2);
      assert !At(m, i + k - h);
    }
  }

  // ------------------------------------------------------------------
  // _remove_single_points

  /** The structures of classification.py:49 and :51. */
  const LeftPair: seq<bool> := [true, true, false]
  const RightPair: seq<bool> := [false, true, true]
  const Flanks: seq<bool> := [true, false, true]

  /** First pass: a True survives when one of its neighbours is True. */
  function DropLoneTrue(m: seq<bool>): (t: seq<bool>)
    ensures |t| == |m|
  {
    Or(Erode(m, LeftPair), Erode(m, RightPair))
  }

  /** Second pass: a False whose two neighbours are True becomes True. */
  function FillLoneFalse(t: seq<bool>): (r: seq<bool>)
    ensures |r| == |t|
  {
    Or(t, Erode(t, Flanks))
  }

  function RemoveSinglePoints(m: seq<bool>): (r: seq<bool>)
    ensures |r| == |m|
  {
    FillLoneFalse(DropLoneTrue(m))
  }

  /** Whether m[i] is a True with a True neighbour. */
  predicate Survives(m: seq<bool>, i: int) {
    At(m, i) && (At(m, i - 1) || At(m, i + 1))
  }

  lemma DropLoneTrueAt(m: seq<bool>, i: int)
    ensures At(DropLoneTrue(m), i) <==> Survives(m, i)
  {
    if !(0 <= i < |m|) { return; }
    assert Fits(m, LeftPair, i) <==> At(m, i - 1) && At(m, i) by {
      if At(m, i - 1) && At(m, i) {
        forall k | 0 <= k < 3 && LeftPair[k] ensures At(m, i + k - 1) {
          assert k == 0 || k == 1;
        }
      } else {
        assert LeftPair[0] && LeftPair[1];
      }
    }
    assert Fits(m, RightPair, i) <==> At(m, i) && At(m, i + 1) by {
      if At(m, i) && At(m, i + 1) {
        forall k | 0 <= k < 3 && RightPair[k] ensures At(m, i + k - 1) {
          assert k == 1 || k == 2;
        }
      } else {
        assert RightPair[1] && RightPair[2];
      }
    }
  }

  lemma FillLoneFalseAt(t: seq<bool>, i: int)
    requires 0 <= i < |t|
    ensures FillLoneFalse(t)[i] <==> t[i] || (At(t, i - 1) && At(t, i + 1))
  {
    assert Fits(t, Flanks, i) <==> At(t, i - 1) && At(t, i + 1) by {
      if At(t, i - 1) && At(t, i + 1) {
        forall k | 0 <= k < 3 && Flanks[k] ensures At(t, i + k - 1) {
          assert k == 0 || k == 2;
        }
      } else {
        assert Flanks[0] && Flanks[2];
      }
    }
  }

  /** The output cell in terms of the input: the survivors, plus the interior
      Falses flanked by two survivors. Cells outside the mask count as False. */
  lemma {:induction false} RemoveSinglePointsAt(m: seq<bool>, i: int)
    requires 0 <= i < |m|
    ensures RemoveSinglePoints(m)[i] <==>
              Survives(m, i) || (Survives(m, i - 1) && Survives(m, i + 1))
  {
    var t := DropLoneTrue(m);
    FillLoneFalseAt(t, i);
    DropLoneTrueAt(m, i);
    DropLoneTrueAt(m, i - 1);
    DropLoneTrueAt(m, i + 1);
    assert t[i] == At(t, i);
  }

  /** A True with no True neighbour becomes False. */
  lemma LoneTrueRemoved(m: seq<bool>, i: int)
    requires 0 <= i < |m| && m[i] && !At(m, i - 1) && !At(m, i + 1)
    ensures !RemoveSinglePoints(m)[i]
  {
    RemoveSinglePointsAt(m, i);
  }

  /** A True with a True neighbour survives. */
  lemma NeighbouredTrueKept(m: seq<bool>, i: int)
    requires 0 <= i < |m| && m[i] && (At(m, i - 1) || At(m, i + 1))
    ensures RemoveSinglePoints(m)[i]
  {
    RemoveSinglePointsAt(m, i);
  }

  /** A False flips to True exactly when it is interior and both neighbours
      survive the first pass; in particular a False at either end never flips. */
  lemma FalseFlipsIff(m: seq<bool>, i: int)
    requires 0 <= i < |m| && !m[i]
    ensures RemoveSinglePoints(m)[i] <==>
              0 < i < |m| - 1 && Survives(m, i - 1) && Survives(m, i + 1)
    ensures (i == 0 || i == |m| - 1) ==> !RemoveSinglePoints(m)[i]
  {
    RemoveSinglePointsAt(m, i);
  }

  /** No True without a True neighbour. */
  predicate NoLoneTrue(m: seq<bool>) {
    forall i :: 0 <= i < |m| && m[i] ==> At(m, i - 1) || At(m, i + 1)
  }

  /** No interior False between two Trues. */
  predicate NoInteriorLoneFalse(m: seq<bool>) {
    forall i :: 0 < i < |m| - 1 && !m[i] ==> !m[i - 1] || !m[i + 1]
  }

  predicate Clean(m: seq<bool>) {
    NoLoneTrue(m) && NoInteriorLoneFalse(m)
  }

  /** The output cell as a predicate of the input. */
  predicate Kept(m: seq<bool>, i: int) {
    Survives(m, i) || (Survives(m, i - 1) && Survives(m, i + 1))
  }

  lemma RemoveSinglePointsAll(m: seq<bool>)
    ensures forall i :: At(RemoveSinglePoints(m), i) <==> Kept(m, i)
  {
    forall i ensures At(RemoveSinglePoints(m), i) <==> Kept(m, i) {
      if 0 <= i < |m| { RemoveSinglePointsAt(m, i); }
    }
  }

  lemma {:induction false} RemoveSinglePointsClean(m: seq<bool>)
    ensures Clean(RemoveSinglePoints(m))
  {
    var r := RemoveSinglePoints(m);
    RemoveSinglePointsAll(m);
    forall i | 0 <= i < |r| && r[i] ensures At(r, i - 1) || At(r, i + 1) {
      assert At(r, i) && Kept(m, i);
      if Survives(m, i) {
        assert Kept(m, i - 1) || Kept(m, i + 1);
      } else {
        assert Kept(m, i - 1) && Kept(m, i + 1);
      }
    }
    forall i | 0 < i < |r| - 1 && !r[i] ensures !r[i - 1] || !r[i + 1] {
      assert !At(r, i) && !Kept(m, i);
      assert !Survives(m, i);
      assert !Kept(m, i - 1) || !Kept(m, i + 1);
      assert !At(r, i - 1) || !At(r, i + 1);
    }
  }

  /** A mask is left alone exactly when it is already clean. */
  lemma {:induction false} RemoveSinglePointsFixedIff(m: seq<bool>)
    ensures RemoveSinglePoints(m) == m <==> Clean(m)
  {
    if Clean(m) {
      var r := RemoveSinglePoints(m);
      forall i | 0 <= i < |m| ensures r[i] == m[i] {
        RemoveSinglePointsAt(m, i);
        if m[i] {
          assert Survives(m, i);
        } else if Survives(m, i - 1) && Survives(m, i + 1) {
          assert false;
        }
      }
    } else if RemoveSinglePoints(m) == m {
      RemoveSinglePointsClean(m);
    }
  }

  /** Applying the removal twice is the same as applying it once. */
  lemma RemoveSinglePointsIdempotent(m: seq<bool>)
    ensures RemoveSinglePoints(RemoveSinglePoints(m)) == RemoveSinglePoints(m)
  {
    RemoveSinglePointsClean(m);
    RemoveSinglePointsFixedIff(RemoveSinglePoints(m));
  }
}

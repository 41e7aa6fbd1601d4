/** `_haar`, pybaselines/classification.py:871-895, without the final
    division by sqrt(scale). The wavelet is centred between the points: with
    the coordinate x_i = i - (n - 1) / 2 it is 1 on (-scale/2, 0) and -1 on
    (0, scale/2). The model doubles the coordinates, X_i = 2i - (n - 1), so
    that every quantity is an integer: 1 on -scale < X < 0 and -1 on
    0 < X < scale. */
module Haar {

  /** The doubled coordinate 2 * x_i of point i. */
  function Doubled(n: nat, i: int): int {
    2 * i - (n - 1)
  }

  /** The unnormalised wavelet of n points at the given scale. */
  function Haar(n: nat, scale: int): (w: seq<int>)
    ensures |w| == n
  {
    seq(n, i requires 0 <= i < n =>
      var x := Doubled(n, i);
      if -scale < x < 0 then 1 else if 0 < x < scale then -1 else 0)
  }

  /** Every entry is -1, 0 or 1, and it is 0 at the centre (x == 0) and at or
      beyond half the scale (|x| >= scale / 2). */
  lemma HaarValues(n: nat, scale: int, i: int)
    requires 0 <= i < n
    ensures Haar(n, scale)[i] in {-1, 0, 1}
    ensures Doubled(n, i) == 0 ==> Haar(n, scale)[i] == 0
    ensures Doubled(n, i) >= scale || Doubled(n, i) <= -scale ==> Haar(n, scale)[i] == 0
    ensures Haar(n, scale)[i] == 1 <==> -scale < Doubled(n, i) < 0
    ensures Haar(n, scale)[i] == -1 <==> 0 < Doubled(n, i) < scale
  {
  }

  /** The wavelet is antisymmetric about its centre. */
  predicate Antisymmetric(s: seq<int>) {
    forall i :: 0 <= i < |s| ==> s[i] == -s[|s| - 1 - i]
  }

  lemma HaarAntisymmetric(n: nat, scale: int)
    ensures Antisymmetric(Haar(n, scale))
  {
    var w := Haar(n, scale);
    forall i | 0 <= i < n ensures w[i] == -w[n - 1 - i] {
      assert Doubled(n, n - 1 - i) == -Doubled(n, i);
    }
  }

  function Sum(s: seq<int>): int {
    if |s| == 0 then 0 else s[0] + Sum(s[1..])
  }

  lemma {:induction false} SumLast(s: seq<int>)
    requires |s| > 0
    ensures Sum(s) == Sum(s[..|s| - 1]) + s[|s| - 1]
    decreases |s|
  {
    if |s| > 1 {
      SumLast(s[1..]);
      assert s[1..][..|s| - 2] == s[..|s| - 1][1..];
    }
  }

  /** An antisymmetric sequence sums to zero. */
  lemma {:induction false} AntisymmetricSumZero(s: seq<int>)
    requires Antisymmetric(s)
    ensures Sum(s) == 0
    decreases |s|
  {
    if |s| == 1 {
      assert s[0] == -s[0];
    } else if |s| > 1 {
      var mid := s[1..|s| - 1];
      forall i | 0 <= i < |mid| ensures mid[i] == -mid[|mid| - 1 - i] {
        assert mid[i] == s[i + 1];
        assert mid[|mid| - 1 - i] == s[|s| - 1 - (i + 1)];
      }
      AntisymmetricSumZero(mid);
      SumLast(s[1..]);
      assert s[1..][..|s| - 2] == mid;
      assert s[0] == -s[|s| - 1];
    }
  }

  /** The wavelet sums to zero. */
  lemma HaarSumZero(n: nat, scale: int)
    ensures Sum(Haar(n, scale)) == 0
  {
    HaarAntisymmetric(n, scale);
    AntisymmetricSumZero(Haar(n, scale));
  }

  /** Two instances at scale 4: with six points two ones and two minus ones,
      with five points the centre and the points at |x| == scale / 2 are 0. */
  lemma HaarExample()
    ensures Haar(6, 4) == [0, 1, 1, -1, -1, 0]
    ensures Haar(5, 4) == [0, 1, 0, -1, 0]
  {
  }
}

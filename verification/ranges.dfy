/** Peak ranges: the interval between two consecutive minima, trimmed on
    each side by a fraction (`desired_border`) of its width. */
module PeakRanges {

  predicate NonDecreasing(s: seq<int>) {
    forall i, j :: 0 <= i < j < |s| ==> s[i] <= s[j]
  }

  /** Python's `int()` on a float: truncation toward zero. */
  function Trunc(x: real): (t: int)
    ensures x >= 0.0 ==> t as real <= x < t as real + 1.0
    ensures x < 0.0 ==> t as real - 1.0 < x <= t as real
  {
    if x >= 0.0 then x.Floor else -((-x).Floor)
  }

  lemma TruncMonotone(x: real, y: real)
    requires x <= y
    ensures Trunc(x) <= Trunc(y)
  {
  }

  /** An integer survives the round trip through a float. */
  lemma TruncOfInt(n: int)
    ensures Trunc(n as real) == n
  {
  }

  /** Truncating a value that lies between two integers stays between them. */
  lemma TruncBetween(lo: int, x: real, hi: int)
    requires lo as real <= x <= hi as real
    ensures lo <= Trunc(x) <= hi
  {
  }

  /** The amount trimmed from each side: `desired_border * width`. */
  function Cut(lo: int, hi: int, border: real): real {
    border * (hi - lo) as real
  }

  /** Trims `border * (hi - lo)` from both ends of [lo, hi] and truncates. */
  function TrimPair(lo: int, hi: int, border: real): (r: (int, int))
  {
    (Trunc(lo as real + Cut(lo, hi, border)), Trunc(hi as real - Cut(lo, hi, border)))
  }

  lemma CutAtMostHalf(lo: int, hi: int, border: real)
    requires lo <= hi
    requires 0.0 <= border <= 0.5
    ensures 0.0 <= Cut(lo, hi, border)
    ensures 2.0 * Cut(lo, hi, border) <= (hi - lo) as real
  {
    var w := (hi - lo) as real;
    assert border * w >= 0.0;
    assert (0.5 - border) * w >= 0.0;
  }

  lemma TrimPairWithin(lo: int, hi: int, border: real)
    requires lo <= hi
    requires 0.0 <= border <= 0.5
    ensures lo <= TrimPair(lo, hi, border).0 <= TrimPair(lo, hi, border).1 <= hi
  {
    CutAtMostHalf(lo, hi, border);
    TrimByCut(lo, hi, Cut(lo, hi, border));
  }

  lemma TrimByCut(lo: int, hi: int, cut: real)
    requires 0.0 <= cut
    requires 2.0 * cut <= (hi - lo) as real
    ensures lo <= Trunc(lo as real + cut) <= Trunc(hi as real - cut) <= hi
  {
    var a := lo as real + cut;
    var b := hi as real - cut;
    TruncBetween(lo, a, hi);
    TruncBetween(lo, b, hi);
    TruncMonotone(a, b);
  }

  /** `zip(minima, minima[1:])`. */
  function ConsecutivePairs(s: seq<int>): (ps: seq<(int, int)>)
    ensures |ps| == if |s| == 0 then 0 else |s| - 1
    ensures forall i :: 0 <= i < |ps| ==> ps[i] == (s[i], s[i + 1])
  {
    if |s| == 0 then [] else seq(|s| - 1, i requires 0 <= i < |s| - 1 => (s[i], s[i + 1]))
  }

  /** `ranges_from_extrema`: one trimmed range per pair of consecutive minima,
      with the range of the first pair dropped. Only the minima are read. */
  function RangesFromExtrema(mins: seq<int>, border: real): (r: seq<(int, int)>)
    ensures |r| == if |mins| >= 2 then |mins| - 2 else 0
    ensures forall k :: 0 <= k < |r| ==> r[k] == TrimPair(mins[k + 1], mins[k + 2], border)
  {
    var pairs := ConsecutivePairs(mins);
    var trimmed := seq(|pairs|, i requires 0 <= i < |pairs| => TrimPair(pairs[i].0, pairs[i].1, border));
    if |trimmed| == 0 then [] else trimmed[1..]
  }

  /** For ascending minima and a border of at most one half, range k lies
      inside [Min[k+1], Min[k+2]] and consecutive ranges do not overlap. */
  lemma RangesWithinMinima(mins: seq<int>, border: real)
    requires NonDecreasing(mins)
    requires 0.0 <= border <= 0.5
    ensures var r := RangesFromExtrema(mins, border);
      && (forall k :: 0 <= k < |r| ==> mins[k + 1] <= r[k].0 <= r[k].1 <= mins[k + 2])
      && (forall k :: 0 <= k < |r| - 1 ==> r[k].1 <= r[k + 1].0)
  {
    var r := RangesFromExtrema(mins, border);
    forall k | 0 <= k < |r|
      ensures mins[k + 1] <= r[k].0 <= r[k].1 <= mins[k + 2]
    {
      TrimPairWithin(mins[k + 1], mins[k + 2], border);
    }
  }

  /** With no border the ranges are exactly the pairs of minima after the first. */
  lemma RangesZeroBorder(mins: seq<int>)
    ensures var r := RangesFromExtrema(mins, 0.0);
      forall k :: 0 <= k < |r| ==> r[k] == (mins[k + 1], mins[k + 2])
  {
    var r := RangesFromExtrema(mins, 0.0);
    forall k | 0 <= k < |r|
      ensures r[k] == (mins[k + 1], mins[k + 2])
    {
      TruncOfInt(mins[k + 1]);
      TruncOfInt(mins[k + 2]);
    }
  }
}

/** `calculate_ex_score`: how periodic a set of extrema is. Lower is better;
    infinity disqualifies. */
module Scoring {
  import opened Results
  import opened PeakRanges
  import opened ExtremaWalk

  /** A float score: a finite value or `float("inf")`. */
  datatype Score = Finite(value: real) | Infinite

  /** Python's `<` between two scores, infinity above every finite value. */
  predicate Below(a: Score, b: Score) {
    match a
    case Infinite => false
    case Finite(x) => b.Infinite? || x < b.value
  }

  lemma BelowTransitive(a: Score, b: Score, c: Score)
    requires Below(a, b) && !Below(c, b)
    ensures Below(a, c) && !Below(c, a)
  {
  }

  function Abs(x: real): (r: real)
    ensures r >= 0.0
    ensures r == x || r == -x
  {
    if x < 0.0 then -x else x
  }

  /** The test of lines 260-262 over `zip(mx, ranges)`: every maximum lies
      strictly inside the range paired with it. */
  function AllInside(mx: seq<int>, rs: seq<(int, int)>): (ok: bool)
    ensures ok <==> forall k :: 0 <= k < |mx| && k < |rs| ==> rs[k].0 < mx[k] < rs[k].1
    decreases |mx|
  {
    if |mx| == 0 || |rs| == 0 then true
    else rs[0].0 < mx[0] < rs[0].1 && AllInside(mx[1..], rs[1..])
  }

  /** The two ways a score becomes infinite: a first maximum below 3, or some
      later maximum Max[k+1] not strictly inside peak range k. */
  predicate Disqualified(ex: Extrema, border: real)
    requires |ex.maxs| > 0
  {
    var rs := RangesFromExtrema(ex.mins, border);
    || ex.maxs[0] < 3
    || exists k :: 0 <= k < |ex.maxs| - 1 && k < |rs| && !(rs[k].0 < ex.maxs[k + 1] < rs[k].1)
  }

  /** Sum over x = i .. |maxs|-1 of |Max[x] - (x+1)*Max[0]| / Max[0]. */
  function DeviationSum(maxs: seq<int>, i: nat): real
    requires |maxs| > 0 && maxs[0] != 0
    decreases |maxs| - i
  {
    if i >= |maxs| then 0.0
    else Abs((maxs[i] - maxs[0] * (i + 1)) as real) / maxs[0] as real + DeviationSum(maxs, i + 1)
  }

  /** Sum of the gaps between consecutive minima. */
  function WidthSum(mins: seq<int>): int
    decreases |mins|
  {
    if |mins| < 2 then 0 else (mins[1] - mins[0]) + WidthSum(mins[1..])
  }

  /** The exceptions an evaluation of one parameter pair can raise. */
  predicate ScoringFault(f: Fault) {
    f == IndexError || f == ZeroDivisionError
  }

  function ExScore(ex: Extrema, border: real): (r: Result<Score, Fault>)
    ensures |ex.maxs| == 0 ==> r == Err(IndexError)
    ensures |ex.maxs| > 0 ==> (r == Ok(Infinite) <==> Disqualified(ex, border))
    ensures r.Ok? && r.value.Finite? ==>
      r.value.value >= 0.0 && |ex.maxs| >= 2 && |ex.mins| >= 2 && ex.maxs[0] >= 3
    ensures |ex.maxs| >= 2 && |ex.mins| >= 2 && !Disqualified(ex, border) ==> r.Ok? && r.value.Finite?
    ensures |ex.maxs| == 1 && !Disqualified(ex, border) ==> r == Err(ZeroDivisionError)
    ensures r.Err? ==> (|ex.maxs| < 2 || |ex.mins| < 2) && ScoringFault(r.error)
  {
    if |ex.maxs| == 0 then Err(IndexError)
    else if ex.maxs[0] < 3 then Ok(Infinite)
    else if !AllInside(ex.maxs[1..], RangesFromExtrema(ex.mins, border)) then Ok(Infinite)
    else if |ex.maxs| == 1 then Err(ZeroDivisionError)
    else
      var m0 := ex.maxs[0] as real;
      var mean := DeviationSum(ex.maxs, 1) / (|ex.maxs| - 1) as real;
      var spread := Abs(mean * (m0 - 0.5 * ex.maxs[1] as real));
      if |ex.mins| == 1 then Err(ZeroDivisionError)
      else if |ex.mins| == 0 then Err(IndexError)
      else
        var averageWidth := WidthSum(ex.mins) as real / (|ex.mins| - 1) as real;
        var irregularity := Abs((ex.mins[1] - ex.mins[0]) as real - averageWidth);
        MulNonNegative(spread, irregularity);
        Ok(Finite(spread * irregularity))
  }

  lemma MulNonNegative(a: real, b: real)
    requires a >= 0.0 && b >= 0.0
    ensures a * b >= 0.0
  {
  }

  lemma {:induction false} DeviationSumZero(maxs: seq<int>, i: nat)
    requires |maxs| > 0 && maxs[0] != 0
    requires forall x :: 0 <= x < |maxs| ==> maxs[x] == (x + 1) * maxs[0]
    ensures DeviationSum(maxs, i) == 0.0
    decreases |maxs| - i
  {
    if i < |maxs| {
      assert maxs[i] - maxs[0] * (i + 1) == 0;
      DeviationSumZero(maxs, i + 1);
    }
  }

  /** The gaps telescope: their sum is the span from the first to the last minimum. */
  lemma {:induction false} WidthSumTelescopes(mins: seq<int>)
    requires |mins| > 0
    ensures WidthSum(mins) == Last(mins) - mins[0]
    decreases |mins|
  {
    if |mins| >= 2 {
      WidthSumTelescopes(mins[1..]);
    }
  }

  /** Maxima at exact multiples m, 2m, 3m, ... of the first one score 0. */
  lemma PerfectProgressionScoresZero(ex: Extrema, border: real)
    requires |ex.maxs| >= 2 && |ex.mins| >= 2
    requires !Disqualified(ex, border)
    requires forall x :: 0 <= x < |ex.maxs| ==> ex.maxs[x] == (x + 1) * ex.maxs[0]
    ensures ExScore(ex, border) == Ok(Finite(0.0))
  {
    DeviationSumZero(ex.maxs, 1);
  }

  /** Evenly spaced minima make the width-irregularity factor, and so the score, 0. */
  lemma UniformMinimaScoreZero(ex: Extrema, border: real, gap: int)
    requires |ex.maxs| >= 2 && |ex.mins| >= 2
    requires !Disqualified(ex, border)
    requires forall i :: 0 <= i < |ex.mins| ==> ex.mins[i] == ex.mins[0] + i * gap
    ensures ExScore(ex, border) == Ok(Finite(0.0))
  {
    var n := |ex.mins|;
    WidthSumTelescopes(ex.mins);
    assert WidthSum(ex.mins) == (n - 1) * gap;
    var averageWidth := WidthSum(ex.mins) as real / (n - 1) as real;
    assert averageWidth == gap as real;
    assert ex.mins[1] - ex.mins[0] == gap;
    assert Abs((ex.mins[1] - ex.mins[0]) as real - averageWidth) == 0.0;
  }
}

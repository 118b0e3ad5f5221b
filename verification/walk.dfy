/** The alternating min/max walk of `estimate_extrema` over the candidate
    extremum positions reported by the relative-extremum detector. */
module ExtremaWalk {
  import opened Results
  import opened PeakRanges

  /** The `{'Min': [...], 'Max': [...]}` dictionary. */
  datatype Extrema = Extrema(mins: seq<int>, maxs: seq<int>)

  /** Candidate minimum and maximum positions, after the first candidate of
      each kind has been dropped (`.tolist()[1:]`). */
  datatype Candidates = Candidates(mins: seq<int>, maxs: seq<int>)

  /** The walk's variables: the lists built so far, `min_index`, `max_index`. */
  datatype WalkState = WalkState(ex: Extrema, minIdx: nat, maxIdx: nat)

  function Last(s: seq<int>): int
    requires |s| > 0
  {
    s[|s| - 1]
  }

  /** The inner loop over maxima: skip the maxima lying before the last
      accepted minimum. The flag says whether the loop ended without `break`,
      in which case its `else` branch accepts `maxs[index]`. */
  function SkipMaxima(maxs: seq<int>, i: nat, last: int): (r: (nat, bool))
    requires i < |maxs|
    ensures i <= r.0 <= |maxs|
    ensures r.1 <==> r.0 < |maxs|
    ensures r.1 ==> maxs[r.0] >= last
    ensures forall j :: i <= j < r.0 ==> maxs[j] < last
    decreases |maxs| - i
  {
    if maxs[i] < last then
      if i + 1 == |maxs| then (i + 1, false) else SkipMaxima(maxs, i + 1, last)
    else (i, true)
  }

  /** The inner loop over minima. The source breaks out when the index
      reaches `bound`, which it computes as `len(max_list)`; whenever the
      index runs past the minima first, `min_list[min_index]` raises. */
  function SkipMinima(mins: seq<int>, bound: nat, i: nat, last: int): (r: Result<(nat, bool), Fault>)
    ensures r.Ok? ==> i <= r.value.0 <= |mins|
    ensures r.Ok? && r.value.1 ==> r.value.0 < |mins| && mins[r.value.0] >= last
    ensures r.Ok? && !r.value.1 ==> r.value.0 == bound
    ensures r.Ok? ==> forall j :: i <= j < r.value.0 ==> mins[j] < last
    ensures r.Err? ==> r.error == IndexError && !(i < bound <= |mins|)
    ensures r.Err? ==> forall j :: i <= j < |mins| ==> mins[j] < last
    decreases |mins| - i
  {
    if i >= |mins| then Err(IndexError)
    else if mins[i] < last then
      if i + 1 == bound then Ok((i + 1, false)) else SkipMinima(mins, bound, i + 1, last)
    else Ok((i, true))
  }

  /** What one round of the walk may do to the lists: append at most one
      maximum, no smaller than the last minimum, then at most one minimum, no
      smaller than the last maximum; all taken from the candidates. */
  predicate StepAppends(c: Candidates, a: Extrema, b: Extrema)
    requires |a.mins| > 0
  {
    && |b.maxs| > 0
    && |b.mins| > 0
    && (b.maxs == a.maxs
        || (b.maxs == a.maxs + [Last(b.maxs)] && Last(b.maxs) in c.maxs && Last(b.maxs) >= Last(a.mins)))
    && (b.mins == a.mins
        || (b.mins == a.mins + [Last(b.mins)] && Last(b.mins) in c.mins && Last(b.mins) >= Last(b.maxs)))
  }

  /** One iteration of the outer `while` loop (lines 301-316), entered when
      neither index has run out. */
  function Step(c: Candidates, s: WalkState): (r: Result<WalkState, Fault>)
    requires s.maxIdx < |c.maxs| && s.minIdx < |c.mins| && |s.ex.mins| > 0
    ensures r.Ok? ==> StepAppends(c, s.ex, r.value.ex)
    ensures r.Ok? ==> s.minIdx <= r.value.minIdx <= |c.mins| && s.maxIdx <= r.value.maxIdx <= |c.maxs|
    ensures r.Ok? && r.value.ex.maxs == s.ex.maxs ==> r.value.maxIdx == |c.maxs|
    ensures r.Ok? && r.value.ex.maxs != s.ex.maxs ==>
      r.value.maxIdx < |c.maxs| && Last(r.value.ex.maxs) == c.maxs[r.value.maxIdx]
    ensures r.Ok? && r.value.ex.mins != s.ex.mins ==>
      r.value.minIdx < |c.mins| && Last(r.value.ex.mins) == c.mins[r.value.minIdx]
    ensures r.Err? ==> r.error == IndexError
    ensures s.ex.maxs == [] && (forall j :: s.maxIdx <= j < |c.maxs| ==> c.maxs[j] < Last(s.ex.mins))
      ==> r == Err(IndexError)
  {
    var (mi, found) := SkipMaxima(c.maxs, s.maxIdx, Last(s.ex.mins));
    var maxs := if found then s.ex.maxs + [c.maxs[mi]] else s.ex.maxs;
    if |maxs| == 0 then Err(IndexError)
    else
      var skipped :- SkipMinima(c.mins, |c.maxs|, s.minIdx, Last(maxs));
      var ni := skipped.0;
      var mins := if skipped.1 then s.ex.mins + [c.mins[ni]] else s.ex.mins;
      Ok(WalkState(Extrema(mins, maxs), ni, mi))
  }

  /** The facts the walk keeps after `count` rounds. */
  predicate WalkInv(c: Candidates, s: WalkState, count: nat) {
    && |c.mins| > 0
    && |s.ex.mins| > 0
    && s.ex.mins[0] == c.mins[0]
    && |s.ex.maxs| <= count
    && |s.ex.mins| <= count + 1
    && (|s.ex.mins| <= |s.ex.maxs| + 1 || (s.maxIdx >= |c.maxs| && |s.ex.mins| == |s.ex.maxs| + 2))
    && (forall x :: x in s.ex.mins ==> x in c.mins)
    && (forall x :: x in s.ex.maxs ==> x in c.maxs)
  }

  /** What the finished walk guarantees for `num_peaks_desired == n`. */
  predicate WalkBounds(c: Candidates, e: Extrema, n: nat) {
    && |c.mins| > 0
    && |e.mins| > 0
    && e.mins[0] == c.mins[0]
    && |e.maxs| <= n
    && |e.mins| <= n + 1
    && |e.mins| <= |e.maxs| + 2
    && (forall x :: x in e.mins ==> x in c.mins)
    && (forall x :: x in e.maxs ==> x in c.maxs)
  }

  function WalkFrom(c: Candidates, n: nat, count: nat, s: WalkState): (r: Result<Extrema, Fault>)
    requires count <= n
    requires WalkInv(c, s, count)
    ensures r.Ok? ==> WalkBounds(c, r.value, n)
    ensures r.Err? ==> r.error == IndexError
    decreases n - count
  {
    if count == n || s.maxIdx >= |c.maxs| || s.minIdx >= |c.mins| then Ok(s.ex)
    else
      var next :- Step(c, s);
      WalkFrom(c, n, count + 1, next)
  }

  /** `estimate_extrema` after smoothing and detection: accept the first
      candidate minimum (IndexError when there is none), then walk. */
  function EstimateWalk(c: Candidates, n: nat): (r: Result<Extrema, Fault>)
    ensures |c.mins| == 0 ==> r == Err(IndexError)
    ensures r.Err? ==> r.error == IndexError
    ensures r.Ok? ==> WalkBounds(c, r.value, n)
  {
    if |c.mins| == 0 then Err(IndexError)
    else WalkFrom(c, n, 0, WalkState(Extrema([c.mins[0]], []), 1, 0))
  }

  /** Ordering facts the walk keeps when the candidates are ascending. */
  predicate OrderInv(c: Candidates, s: WalkState) {
    && |s.ex.mins| > 0
    && NonDecreasing(s.ex.mins)
    && NonDecreasing(s.ex.maxs)
    && (s.minIdx < |c.mins| ==> Last(s.ex.mins) <= c.mins[s.minIdx])
    && (|s.ex.maxs| > 0 && s.maxIdx < |c.maxs| ==> Last(s.ex.maxs) <= c.maxs[s.maxIdx])
  }

  lemma AppendKeepsNonDecreasing(s: seq<int>, x: int)
    requires NonDecreasing(s)
    requires |s| > 0 ==> Last(s) <= x
    ensures NonDecreasing(s + [x])
  {
  }

  lemma StepKeepsOrder(c: Candidates, s: WalkState)
    requires NonDecreasing(c.mins) && NonDecreasing(c.maxs)
    requires s.maxIdx < |c.maxs| && s.minIdx < |c.mins| && |s.ex.mins| > 0
    requires OrderInv(c, s)
    requires Step(c, s).Ok?
    ensures OrderInv(c, Step(c, s).value)
  {
    var t := Step(c, s).value;
    if t.ex.maxs != s.ex.maxs {
      assert t.ex.maxs == s.ex.maxs + [Last(t.ex.maxs)];
      AppendKeepsNonDecreasing(s.ex.maxs, Last(t.ex.maxs));
    }
    if t.ex.mins != s.ex.mins {
      assert t.ex.mins == s.ex.mins + [Last(t.ex.mins)];
      AppendKeepsNonDecreasing(s.ex.mins, Last(t.ex.mins));
    }
  }

  lemma {:induction false} WalkFromOrdered(c: Candidates, n: nat, count: nat, s: WalkState)
    requires NonDecreasing(c.mins) && NonDecreasing(c.maxs)
    requires count <= n
    requires WalkInv(c, s, count)
    requires OrderInv(c, s)
    requires WalkFrom(c, n, count, s).Ok?
    ensures NonDecreasing(WalkFrom(c, n, count, s).value.mins)
    ensures NonDecreasing(WalkFrom(c, n, count, s).value.maxs)
    decreases n - count
  {
    if count == n || s.maxIdx >= |c.maxs| || s.minIdx >= |c.mins| {
    } else {
      StepKeepsOrder(c, s);
      WalkFromOrdered(c, n, count + 1, Step(c, s).value);
    }
  }

  /** With ascending candidate lists (as `argrelextrema` reports them) both
      output lists are non-decreasing. */
  lemma WalkOrdered(c: Candidates, n: nat)
    requires NonDecreasing(c.mins) && NonDecreasing(c.maxs)
    requires EstimateWalk(c, n).Ok?
    ensures NonDecreasing(EstimateWalk(c, n).value.mins)
    ensures NonDecreasing(EstimateWalk(c, n).value.maxs)
  {
    WalkFromOrdered(c, n, 0, WalkState(Extrema([c.mins[0]], []), 1, 0));
  }

  /** The inner loop over minima compares its index with `len(max_list)`
      instead of `len(min_list)`: with fewer candidate minima than maxima the
      index runs off the minima and the walk raises, where the bound
      `len(min_list)` would have ended the loop cleanly. */
  lemma MinLoopBoundRaises()
    ensures EstimateWalk(Candidates([0, 2], [5, 6, 7]), 1) == Err(IndexError)
    ensures SkipMinima([0, 2], 2, 1, 5) == Ok((2, false))
  {
    var c := Candidates([0, 2], [5, 6, 7]);
    var s0 := WalkState(Extrema([0], []), 1, 0);
    assert SkipMaxima(c.maxs, 0, 0) == (0, true);
    assert SkipMinima(c.mins, 3, 1, 5) == Err(IndexError);
    assert Step(c, s0) == Err(IndexError);
  }
}

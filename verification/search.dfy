/** The parameter search of `find_extrema_main` and the peak-count
    selection of `find_extrema`. */
module Search {
  import opened Results
  import opened Histograms
  import opened ExtremaWalk
  import opened Scoring

  /** The smoothing and relative-extremum detection for one padded
      histogram: (window_size, order) to the candidate lists after `[1:]`. */
  type Detector = (int, int) -> Candidates

  /** Line 348-352: the current pair and its four neighbours, in this order,
      keeping only pairs with both components positive. */
  function Neighbours(w: int, o: int): (ps: seq<(int, int)>)
    ensures forall i :: 0 <= i < |ps| ==> ps[i].0 > 0 && ps[i].1 > 0
    ensures forall p :: p in ps <==>
      (p == (w, o) || p == (w + 5, o) || p == (w, o + 1) || p == (w - 5, o) || p == (w, o - 1))
      && p.0 > 0 && p.1 > 0
    ensures w > 0 && o > 0 ==> |ps| > 0 && ps[0] == (w, o)
  {
    KeepPositive([(w, o), (w + 5, o), (w, o + 1), (w - 5, o), (w, o - 1)])
  }

  /** The pairs of `ps` with both components positive, in their order in `ps`. */
  function KeepPositive(ps: seq<(int, int)>): (r: seq<(int, int)>)
    ensures forall p :: p in r <==> p in ps && p.0 > 0 && p.1 > 0
    ensures |ps| > 0 && ps[0].0 > 0 && ps[0].1 > 0 ==> |r| > 0 && r[0] == ps[0]
  {
    if |ps| == 0 then []
    else if ps[0].0 > 0 && ps[0].1 > 0 then [ps[0]] + KeepPositive(ps[1..])
    else KeepPositive(ps[1..])
  }

  /** The filter works pair by pair and keeps order: filtering a
      concatenation concatenates the filtered parts, and a single pair is
      kept exactly when both its components are positive. */
  lemma {:induction false} KeepPositiveKeepsOrder(a: seq<(int, int)>, b: seq<(int, int)>, p: (int, int))
    ensures KeepPositive(a + b) == KeepPositive(a) + KeepPositive(b)
    ensures KeepPositive([p]) == if p.0 > 0 && p.1 > 0 then [p] else []
  {
    if |a| == 0 {
      assert a + b == b;
    } else {
      assert (a + b)[0] == a[0];
      assert (a + b)[1..] == a[1..] + b;
      KeepPositiveKeepsOrder(a[1..], b, p);
    }
    assert [p][1..] == [];
  }

  /** `calculate_ex_score(estimate_extrema(hist, w, o, n))`, keeping the extrema. */
  function Evaluate(detect: Detector, n: nat, border: real, p: (int, int)): (r: Result<(Extrema, Score), Fault>)
    ensures r.Ok? ==> EstimateWalk(detect(p.0, p.1), n) == Ok(r.value.0)
    ensures r.Ok? ==> ExScore(r.value.0, border) == Ok(r.value.1)
    ensures r.Err? ==> ScoringFault(r.error)
  {
    var ex :- EstimateWalk(detect(p.0, p.1), n);
    var s :- ExScore(ex, border);
    Ok((ex, s))
  }

  /** Scores the pairs in order; the first exception propagates. */
  function EvaluateAll(detect: Detector, n: nat, border: real, ps: seq<(int, int)>): (r: Result<seq<(Extrema, Score)>, Fault>)
    ensures r.Ok? ==> |r.value| == |ps|
    ensures r.Ok? ==> forall i :: 0 <= i < |ps| ==> Evaluate(detect, n, border, ps[i]) == Ok(r.value[i])
    // an error is that of the first pair that fails
    ensures r.Err? ==> exists k ::
      && 0 <= k < |ps|
      && Evaluate(detect, n, border, ps[k]) == Err(r.error)
      && forall i :: 0 <= i < k ==> Evaluate(detect, n, border, ps[i]).Ok?
    ensures r.Err? ==> ScoringFault(r.error)
  {
    var rs := seq(|ps|, i requires 0 <= i < |ps| => Evaluate(detect, n, border, ps[i]));
    var r := Collect(rs);
    assert r.Err? ==> exists k ::
      && 0 <= k < |ps|
      && Evaluate(detect, n, border, ps[k]) == Err(r.error)
      && forall i :: 0 <= i < k ==> Evaluate(detect, n, border, ps[i]).Ok? by {
      if r.Err? {
        var k :| 0 <= k < |rs| && rs[k] == Err(r.error) && forall i :: 0 <= i < k ==> rs[i].Ok?;
        assert forall i :: 0 <= i < k ==> Evaluate(detect, n, border, ps[i]) == rs[i];
      }
    }
    r
  }

  /** The first element after Python's stable `sorted` by score: a lowest
      score, and the earliest among equals. */
  function BestIndex(ss: seq<Score>): (b: nat)
    requires |ss| > 0
    ensures b < |ss|
    ensures forall j :: 0 <= j < |ss| ==> !Below(ss[j], ss[b])
    ensures forall j :: 0 <= j < b ==> Below(ss[b], ss[j])
  {
    BestFrom(ss, 1, 0)
  }

  function BestFrom(ss: seq<Score>, i: nat, best: nat): (b: nat)
    requires best < i <= |ss|
    requires forall j :: 0 <= j < i ==> !Below(ss[j], ss[best])
    requires forall j :: 0 <= j < best ==> Below(ss[best], ss[j])
    ensures b < |ss|
    ensures forall j :: 0 <= j < |ss| ==> !Below(ss[j], ss[b])
    ensures forall j :: 0 <= j < b ==> Below(ss[b], ss[j])
    decreases |ss| - i
  {
    if i == |ss| then best
    else if Below(ss[i], ss[best]) then
      assert forall j :: 0 <= j < i ==> Below(ss[i], ss[j]) && !Below(ss[j], ss[i]) by {
        forall j | 0 <= j < i
          ensures Below(ss[i], ss[j]) && !Below(ss[j], ss[i])
        {
          BelowTransitive(ss[i], ss[best], ss[j]);
        }
      }
      BestFrom(ss, i + 1, i)
    else BestFrom(ss, i + 1, best)
  }

  function Scores(evals: seq<(Extrema, Score)>): (ss: seq<Score>)
    ensures |ss| == |evals|
    ensures forall i :: 0 <= i < |evals| ==> ss[i] == evals[i].1
  {
    seq(|evals|, i requires 0 <= i < |evals| => evals[i].1)
  }

  /** Every pair in `ps` scores, and none scores below `s`. */
  predicate NoneBelow(detect: Detector, n: nat, border: real, ps: seq<(int, int)>, s: Score) {
    forall p :: p in ps ==>
      Evaluate(detect, n, border, p).Ok? && !Below(Evaluate(detect, n, border, p).value.1, s)
  }

  /** Every pair in `ps` scores, and every score is infinite. */
  predicate AllInfinite(detect: Detector, n: nat, border: real, ps: seq<(int, int)>) {
    forall p :: p in ps ==>
      Evaluate(detect, n, border, p).Ok? && Evaluate(detect, n, border, p).value.1.Infinite?
  }

  /** (ex, s) is what the pair (w, o) evaluates to, and no neighbour of
      (w, o) scores lower: a local optimum of the climb. */
  predicate LocalBest(detect: Detector, n: nat, border: real, w: int, o: int, ex: Extrema, s: Score) {
    && w > 0 && o > 0
    && Evaluate(detect, n, border, (w, o)) == Ok((ex, s))
    && NoneBelow(detect, n, border, Neighbours(w, o), s)
  }

  /** The best of a round's evaluations: no pair scores below it, and it is
      infinite exactly when every pair's score is. */
  lemma {:induction false} BestOfRound(detect: Detector, n: nat, border: real, ps: seq<(int, int)>, evals: seq<(Extrema, Score)>)
    requires |ps| > 0 && EvaluateAll(detect, n, border, ps) == Ok(evals)
    ensures NoneBelow(detect, n, border, ps, evals[BestIndex(Scores(evals))].1)
    ensures evals[BestIndex(Scores(evals))].1.Infinite? <==> AllInfinite(detect, n, border, ps)
  {
    var ss := Scores(evals);
    var b := BestIndex(ss);
    forall p | p in ps
      ensures Evaluate(detect, n, border, p).Ok? && !Below(Evaluate(detect, n, border, p).value.1, evals[b].1)
    {
      var i :| 0 <= i < |ps| && ps[i] == p;
      assert Evaluate(detect, n, border, ps[i]) == Ok(evals[i]);
      assert !Below(ss[i], ss[b]);
    }
    assert Evaluate(detect, n, border, ps[b]) == Ok(evals[b]);
    assert ps[b] in ps;
  }

  /** How one round of the `while True` loop ends. */
  datatype Decision = Done(ex: Extrema, score: Score) | Move(w: int, o: int)

  /** One round of `find_extrema_main` at the current pair (w, o). */
  function Round(detect: Detector, n: nat, border: real, w: int, o: int): (r: Result<Decision, Fault>)
    requires w > 0 && o > 0
    ensures r.Ok? && r.value.Move? ==> r.value.w > 0 && r.value.o > 0
    // an all-infinite round gives up above window 1000, otherwise coarsens both parameters by 10
    ensures r.Ok? && r.value.Done? && r.value.score.Infinite? ==> w > 1000 && r.value.ex == Extrema([], [])
    ensures r.Ok? && r.value.Move? && r.value == Move(w + 10, o + 10) ==>
      EvaluateAll(detect, n, border, Neighbours(w, o)).Ok?
    // any other move goes to a neighbour that scores strictly lower than the current pair
    ensures r.Ok? && r.value.Move? && r.value != Move(w + 10, o + 10) ==>
      var next := (r.value.w, r.value.o);
      && next in Neighbours(w, o) && next != (w, o)
      && Evaluate(detect, n, border, next).Ok? && Evaluate(detect, n, border, (w, o)).Ok?
      && Below(Evaluate(detect, n, border, next).value.1, Evaluate(detect, n, border, (w, o)).value.1)
    // a finite result is the score of the extrema returned with it
    ensures r.Ok? && r.value.Done? && r.value.score.Finite? ==> ExScore(r.value.ex, border) == Ok(r.value.score)
    ensures r.Err? ==> ScoringFault(r.error)
  {
    var ps := Neighbours(w, o);
    var evals :- EvaluateAll(detect, n, border, ps);
    var b := BestIndex(Scores(evals));
    var best := evals[b];
    if best.1 == Infinite then
      if w > 1000 then Ok(Done(Extrema([], []), Infinite)) else Ok(Move(w + 10, o + 10))
    else if ps[b] == (w, o) then Ok(Done(best.0, best.1))
    else if best.1 == Finite(0.0) then Ok(Done(best.0, best.1))
    else Ok(Move(ps[b].0, ps[b].1))
  }

  /** A round fails exactly when scoring one of the pairs fails. */
  lemma {:induction false} RoundFails(detect: Detector, n: nat, border: real, w: int, o: int)
    requires w > 0 && o > 0
    ensures Round(detect, n, border, w, o).Err? <==> EvaluateAll(detect, n, border, Neighbours(w, o)).Err?
  {
    var ps := Neighbours(w, o);
    var all := EvaluateAll(detect, n, border, ps);
    if all.Ok? {
      var evals := all.value;
      RoundUnfolds(detect, n, border, w, o, ps, evals);
    }
  }

  /** A round's decision from its evaluations `evals` of the pairs `ps`. */
  lemma {:induction false} RoundUnfolds(detect: Detector, n: nat, border: real, w: int, o: int, ps: seq<(int, int)>, evals: seq<(Extrema, Score)>)
    requires w > 0 && o > 0 && ps == Neighbours(w, o)
    requires EvaluateAll(detect, n, border, ps) == Ok(evals)
    ensures |ps| > 0 && |evals| == |ps|
    ensures var b := BestIndex(Scores(evals));
      Round(detect, n, border, w, o) ==
        if evals[b].1 == Infinite then
          if w > 1000 then Ok(Done(Extrema([], []), Infinite)) else Ok(Move(w + 10, o + 10))
        else if ps[b] == (w, o) || evals[b].1 == Finite(0.0) then Ok(Done(evals[b].0, evals[b].1))
        else Ok(Move(ps[b].0, ps[b].1))
  {
  }

  /** A round coarsens to (w + 10, o + 10) exactly when every pair scores
      infinite and w is at most 1000. */
  lemma {:induction false} RoundCoarsens(detect: Detector, n: nat, border: real, w: int, o: int)
    requires w > 0 && o > 0
    ensures var r := Round(detect, n, border, w, o);
      r.Ok? ==> (r.value == Move(w + 10, o + 10) <==> w <= 1000 && AllInfinite(detect, n, border, Neighbours(w, o)))
  {
    var ps := Neighbours(w, o);
    var all := EvaluateAll(detect, n, border, ps);
    if all.Ok? {
      var evals := all.value;
      RoundUnfolds(detect, n, border, w, o, ps, evals);
      BestOfRound(detect, n, border, ps, evals);
      var b := BestIndex(Scores(evals));
      var r := Round(detect, n, border, w, o);
      if evals[b].1 == Infinite {
        assert AllInfinite(detect, n, border, ps);
      } else {
        assert !AllInfinite(detect, n, border, ps);
        NotCoarse(w, o, ps, b);
        assert r.value.Done? || r.value == Move(ps[b].0, ps[b].1);
      }
    }
  }

  /** No neighbour of (w, o) is the coarsened pair (w + 10, o + 10). */
  lemma NotCoarse(w: int, o: int, ps: seq<(int, int)>, b: nat)
    requires ps == Neighbours(w, o) && b < |ps|
    ensures ps[b] != (w + 10, o + 10)
  {
    assert ps[b] in ps;
  }

  /** A round stops with an infinite score exactly when every pair scores
      infinite and w is above 1000. */
  lemma {:induction false} RoundGivesUp(detect: Detector, n: nat, border: real, w: int, o: int)
    requires w > 0 && o > 0
    ensures var r := Round(detect, n, border, w, o);
      r.Ok? ==> (r.value.Done? && r.value.score.Infinite? <==> w > 1000 && AllInfinite(detect, n, border, Neighbours(w, o)))
  {
    var ps := Neighbours(w, o);
    var all := EvaluateAll(detect, n, border, ps);
    if all.Ok? {
      var evals := all.value;
      RoundUnfolds(detect, n, border, w, o, ps, evals);
      BestOfRound(detect, n, border, ps, evals);
    }
  }

  /** Any move other than the coarsening one goes to the first best-scoring
      neighbour: the earliest in `Neighbours(w, o)` with the lowest score. */
  lemma {:induction false} RoundClimbs(detect: Detector, n: nat, border: real, w: int, o: int)
    requires w > 0 && o > 0
    ensures var r := Round(detect, n, border, w, o);
      r.Ok? && r.value.Move? && r.value != Move(w + 10, o + 10) ==>
        && EvaluateAll(detect, n, border, Neighbours(w, o)).Ok?
        && var evals := EvaluateAll(detect, n, border, Neighbours(w, o)).value;
           (r.value.w, r.value.o) == Neighbours(w, o)[BestIndex(Scores(evals))]
  {
    var ps := Neighbours(w, o);
    var all := EvaluateAll(detect, n, border, ps);
    if all.Ok? {
      var evals := all.value;
      RoundUnfolds(detect, n, border, w, o, ps, evals);
    }
  }

  /** A round that stops with a finite score stops at a local optimum: the
      current pair's own evaluation, with no neighbour scoring lower; the one
      exception is a neighbour scoring exactly 0, which is taken at once. */
  lemma {:induction false} RoundStopsAtLocalBest(detect: Detector, n: nat, border: real, w: int, o: int)
    requires w > 0 && o > 0
    ensures var r := Round(detect, n, border, w, o);
      r.Ok? && r.value.Done? && r.value.score.Finite? ==>
        LocalBest(detect, n, border, w, o, r.value.ex, r.value.score) || r.value.score == Finite(0.0)
  {
    var ps := Neighbours(w, o);
    var all := EvaluateAll(detect, n, border, ps);
    if all.Ok? {
      var evals := all.value;
      BestOfRound(detect, n, border, ps, evals);
      RoundUnfolds(detect, n, border, w, o, ps, evals);
      var b := BestIndex(Scores(evals));
      var r := Round(detect, n, border, w, o);
      if r.value.Done? && r.value.score.Finite? && r.value.score != Finite(0.0) {
        assert ps[b] == (w, o) && r.value == Done(evals[b].0, evals[b].1);
        assert Evaluate(detect, n, border, ps[b]) == Ok(evals[b]);
      }
    }
  }

  /** The hill climb from (w, o), bounded by `fuel` rounds. */
  function Optimize(detect: Detector, n: nat, border: real, w: int, o: int, fuel: nat): (r: Result<(Extrema, Score), Fault>)
    requires w > 0 && o > 0
    ensures r.Ok? && r.value.1.Infinite? ==> r.value.0 == Extrema([], [])
    ensures r.Ok? && r.value.1.Finite? ==> ExScore(r.value.0, border) == Ok(r.value.1)
    // a finite result is a local optimum at the pair where the climb stopped, or scores 0
    ensures r.Ok? && r.value.1.Finite? ==>
      r.value.1 == Finite(0.0) || exists w', o' :: LocalBest(detect, n, border, w', o', r.value.0, r.value.1)
    ensures r.Err? ==> ScoringFault(r.error) || r.error == OutOfFuel
    decreases fuel
  {
    if fuel == 0 then Err(OutOfFuel)
    else
      var d :- Round(detect, n, border, w, o);
      match d
      case Done(ex, s) =>
        RoundStopsAtLocalBest(detect, n, border, w, o);
        assert s.Finite? && s != Finite(0.0) ==> LocalBest(detect, n, border, w, o, ex, s);
        Ok((ex, s))
      case Move(w', o') => Optimize(detect, n, border, w', o', fuel - 1)
  }

  /** `find_extrema_main`: the search starts at (10, 10). */
  function FindExtremaMain(detect: Detector, n: nat, border: real, fuel: nat): (r: Result<(Extrema, Score), Fault>)
    ensures Settled(r)
    ensures r.Ok? && r.value.1.Finite? ==> ExScore(r.value.0, border) == Ok(r.value.1)
    ensures r.Ok? && r.value.1.Finite? ==>
      r.value.1 == Finite(0.0) || exists w, o :: LocalBest(detect, n, border, w, o, r.value.0, r.value.1)
  {
    Optimize(detect, n, border, 10, 10, fuel)
  }

  /** What every finished search guarantees: an infinite score comes with
      empty extrema, and a finite one with extrema that hold at least two
      minima and two maxima, the first maximum at index 3 or more; the only exceptions are those
      of scoring and the fuel bound. */
  predicate Settled(r: Result<(Extrema, Score), Fault>) {
    && (r.Err? ==> ScoringFault(r.error) || r.error == OutOfFuel)
    && (r.Ok? && r.value.1.Infinite? ==> r.value.0 == Extrema([], []))
    && (r.Ok? && r.value.1.Finite? ==>
         |r.value.0.maxs| >= 2 && |r.value.0.mins| >= 2 && r.value.0.maxs[0] >= 3)
  }

  /** The search for one peak count; `find_extrema` uses `FindExtremaMain`. */
  type PeakSearch = nat -> Result<(Extrema, Score), Fault>

  /** `find_extrema_main` on one histogram, as a function of the peak count. */
  function MainSearch(detect: Detector, border: real, fuel: nat): (search: PeakSearch)
    ensures forall n: nat :: Settled(search(n))
    ensures forall n: nat :: search(n) == FindExtremaMain(detect, n, border, fuel)
  {
    (n: nat) => FindExtremaMain(detect, n, border, fuel)
  }

  /** Peak counts lo .. hi, each searched in turn; the first exception propagates. */
  function TryCounts(search: PeakSearch, lo: nat, hi: int): (r: Result<seq<(Extrema, Score)>, Fault>)
    ensures r.Ok? ==> |r.value| == if hi >= lo then hi - lo + 1 else 0
    ensures r.Ok? ==> forall i :: 0 <= i < |r.value| ==> search(lo + i) == Ok(r.value[i])
    // an error is that of the first count whose search fails
    ensures r.Err? ==> exists k ::
      && lo <= k <= hi
      && search(k) == Err(r.error)
      && forall c :: lo <= c < k ==> search(c).Ok?
  {
    var count := if hi >= lo then hi - lo + 1 else 0;
    var rs := seq(count, i requires 0 <= i < count => search(lo + i));
    FirstFailingCount(search, lo, hi, rs);
    Collect(rs)
  }

  /** The first error among the searches of counts lo, lo + 1, ... is that of
      the first count whose search fails. */
  lemma {:induction false} FirstFailingCount(search: PeakSearch, lo: nat, hi: int, rs: seq<Result<(Extrema, Score), Fault>>)
    requires |rs| == if hi >= lo then hi - lo + 1 else 0
    requires forall i :: 0 <= i < |rs| ==> rs[i] == search(lo + i)
    ensures Collect(rs).Err? ==> exists k ::
      && lo <= k <= hi
      && search(k) == Err(Collect(rs).error)
      && forall c :: lo <= c < k ==> search(c).Ok?
  {
    var r := Collect(rs);
    if r.Err? {
      var i :| 0 <= i < |rs| && rs[i] == Err(r.error) && forall j :: 0 <= j < i ==> rs[j].Ok?;
      assert search(lo + i) == Err(r.error);
      forall c | lo <= c < lo + i ensures search(c).Ok? {
        assert rs[c - lo] == search(c);
      }
    }
  }

  /** Python's `s[:n]`, where a negative `n` counts from the end. */
  function PyPrefix(s: seq<int>, n: int): (r: seq<int>)
    ensures r <= s
    ensures n >= 0 ==> |r| == if n <= |s| then n else |s|
    ensures n < 0 ==> |r| == if |s| + n >= 0 then |s| + n else 0
  {
    if n >= 0 then s[..if n <= |s| then n else |s|]
    else s[..if |s| + n >= 0 then |s| + n else 0]
  }

  /** Index `b` is where Python's stable `sorted` by score puts its first
      element: no score is lower, and every earlier score is higher. */
  predicate FirstLowest(tried: seq<(Extrema, Score)>, b: int) {
    && 0 <= b < |tried|
    && (forall j :: 0 <= j < |tried| ==> !Below(tried[j].1, tried[b].1))
    && (forall j :: 0 <= j < b ==> Below(tried[b].1, tried[j].1))
  }

  /** The selection step of `find_extrema` over the finished searches. */
  function PickWinner(tried: seq<(Extrema, Score)>, n: int): (r: Result<Extrema, Fault>)
    requires forall i :: 0 <= i < |tried| ==> Settled(Ok(tried[i]))
    ensures r.Err? <==> |tried| == 0 || exists b :: FirstLowest(tried, b) && (tried[b].0.maxs == [] || tried[b].0.mins == [])
    ensures r.Err? ==> r.error == (if |tried| == 0 then IndexError else ExtremaNotFound)
    ensures r.Ok? ==> exists b :: FirstLowest(tried, b) && tried[b].0.maxs != [] && tried[b].0.mins != [] &&
                                 r.value == Extrema(PyPrefix(tried[b].0.mins, n + 1), PyPrefix(tried[b].0.maxs, n))
    // a winner with no extrema means every search came back infinite
    ensures r == Err(ExtremaNotFound) ==> forall i :: 0 <= i < |tried| ==> tried[i].1.Infinite?
    ensures r.Ok? && n >= 1 ==>
      1 <= |r.value.maxs| <= n && 1 <= |r.value.mins| <= n + 1 && r.value.maxs[0] >= 3
  {
    if |tried| == 0 then Err(IndexError)
    else
      var b := BestIndex(Scores(tried));
      var ex := tried[b].0;
      assert FirstLowest(tried, b);
      assert Settled(Ok(tried[b]));
      assert forall c :: FirstLowest(tried, c) ==> c == b by {
        forall c | FirstLowest(tried, c) ensures c == b {
        }
      }
      if ex.maxs == [] || ex.mins == [] then
        assert forall j :: 0 <= j < |tried| ==> tried[j].1.Infinite? by {
          forall j | 0 <= j < |tried| ensures tried[j].1.Infinite? {
            assert !Below(Scores(tried)[j], Scores(tried)[b]);
          }
        }
        Err(ExtremaNotFound)
      else Ok(Extrema(PyPrefix(ex.mins, n + 1), PyPrefix(ex.maxs, n)))
  }

  /** `find_extrema`: search each candidate peak count max(2, n) .. n + 3,
      keep the first lowest-scoring result, reject empty extrema and
      truncate to n maxima and n + 1 minima. `search` is the search on the
      padded histogram. */
  function FindExtrema(h: Histogram, search: PeakSearch, n: int): (r: Result<Extrema, Fault>)
    requires forall k: nat :: Settled(search(k))
    ensures h == map[] ==> r == Err(IndexError)
    ensures h != map[] ==>
      var attempt := TryCounts(search, Max(2, n), n + 3);
      && (attempt.Err? ==> r == Err(attempt.error) && r.error != ExtremaNotFound)
      && (attempt.Ok? ==> r == PickWinner(attempt.value, n))
    ensures r.Ok? && n >= 1 ==>
      1 <= |r.value.maxs| <= n && 1 <= |r.value.mins| <= n + 1 && r.value.maxs[0] >= 3
  {
    var _ :- PadData(h);
    var attempt := TryCounts(search, Max(2, n), n + 3);
    if attempt.Err? then
      assert attempt.error != ExtremaNotFound by {
        var k :| Max(2, n) <= k <= n + 3 && search(k) == Err(attempt.error);
        assert Settled(search(k));
      }
      Err(attempt.error)
    else
      var tried := attempt.value;
      assert forall i :: 0 <= i < |tried| ==> Settled(Ok(tried[i])) by {
        forall i | 0 <= i < |tried| ensures Settled(Ok(tried[i])) {
          assert search(Max(2, n) + i) == Ok(tried[i]);
        }
      }
      PickWinner(tried, n)
  }
}

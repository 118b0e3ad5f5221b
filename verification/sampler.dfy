/** `generate_sample`: draws occurrences from a k-mer histogram by walking
    a running count of k-mer words, and tallies them into a new histogram. */
module Sampler {
  import opened Results
  import opened OrderedKeys
  import opened Histograms

  /** The running count after the first `i` keys of `ks`: the count is
      seeded with `h[1]` before the walk adds occurrence * frequency for
      each key, so the entry of occurrence 1 is counted twice. */
  function Running(h: Histogram, ks: seq<int>, i: nat): int
    requires 1 in h && i <= |ks|
  {
    h[1] + SeqSum(ks[..i], WeightOf(h))
  }

  lemma {:induction false} SeqSumSnoc(s: seq<int>, x: int, f: int -> int)
    ensures SeqSum(s + [x], f) == SeqSum(s, f) + f(x)
    decreases |s|
  {
    if |s| > 0 {
      assert (s + [x])[1..] == s[1..] + [x];
      SeqSumSnoc(s[1..], x, f);
    }
  }

  lemma RunningStep(h: Histogram, ks: seq<int>, i: nat)
    requires 1 in h && i < |ks|
    ensures Running(h, ks, i + 1) == Running(h, ks, i) + Weight(h, ks[i])
  {
    assert ks[..i + 1] == ks[..i] + [ks[i]];
    SeqSumSnoc(ks[..i], ks[i], WeightOf(h));
  }

  /** The running count once key `ks[t]` has been added. */
  function Through(h: Histogram, ks: seq<int>, t: nat): int
    requires 1 in h && t < |ks|
  {
    Running(h, ks, t + 1)
  }

  /** Position `t` (at or after `from`) is the first whose running count exceeds `x`. */
  predicate FirstExceeding(h: Histogram, ks: seq<int>, from: nat, t: int, x: int)
    requires 1 in h
  {
    && from <= t < |ks|
    && Through(h, ks, t) > x
    && forall u :: from <= u < t ==> Through(h, ks, u) <= x
  }

  predicate NoneExceeds(h: Histogram, ks: seq<int>, from: nat, x: int)
    requires 1 in h
  {
    forall u :: from <= u < |ks| ==> Through(h, ks, u) <= x
  }

  /** The inner `for j in hist_dict.keys()` loop from position `i` on, with
      `count` the running count so far: the first key whose running count
      exceeds `x` is chosen; when none does, the loop leaves `j` one past
      the last key. */
  function SelectFrom(h: Histogram, ks: seq<int>, i: nat, count: int, x: int): (j: int)
    requires 1 in h && 0 < |ks| && i <= |ks|
    requires forall t :: 0 <= t < |ks| ==> ks[t] in h
    requires count == Running(h, ks, i)
    ensures (exists t :: FirstExceeding(h, ks, i, t, x) && j == ks[t])
      || (NoneExceeds(h, ks, i, x) && j == ks[|ks| - 1] + 1)
    ensures NoneExceeds(h, ks, i, x) ==> j == ks[|ks| - 1] + 1
    decreases |ks| - i
  {
    if i == |ks| then ks[|ks| - 1] + 1
    else
      var next := count + ks[i] * h[ks[i]];
      RunningStep(h, ks, i);
      assert next == Through(h, ks, i);
      if next > x then ks[i] else SelectFrom(h, ks, i + 1, next, x)
  }

  /** The occurrence chosen for one draw `x`: `hist_dict[1]` raises
      KeyError when occurrence 1 is missing; otherwise the first key, in
      ascending order, whose running count exceeds `x`, or one past the
      last (largest) key. */
  function SelectKey(h: Histogram, x: int): (r: Result<int, Fault>)
    ensures r.Err? <==> 1 !in h
    ensures r.Err? ==> r.error == KeyError
    ensures r.Ok? ==> var ks := SortedSet(h.Keys);
      (exists t :: FirstExceeding(h, ks, 0, t, x) && r.value == ks[t])
      || (NoneExceeds(h, ks, 0, x) && r.value == ks[|ks| - 1] + 1)
    ensures r.Ok? ==> var ks := SortedSet(h.Keys);
      NoneExceeds(h, ks, 0, x) ==> r.value == ks[|ks| - 1] + 1
  {
    if 1 !in h then Err(KeyError)
    else
      var ks := SortedSet(h.Keys);
      assert 1 in ks;
      assert forall t :: 0 <= t < |ks| ==> ks[t] in h by {
        forall t | 0 <= t < |ks| ensures ks[t] in h {
          assert ks[t] in ks;
        }
      }
      assert Running(h, ks, 0) == h[1] by {
        assert ks[..0] == [];
      }
      Ok(SelectFrom(h, ks, 0, h[1], x))
  }

  /** After the last key the running count is `h[1]` plus every word of the histogram. */
  lemma RunningTotal(h: Histogram)
    requires 1 in h
    ensures var ks := SortedSet(h.Keys);
      Running(h, ks, |ks|) == h[1] + NumKmerWords(h)
  {
    var ks := SortedSet(h.Keys);
    assert ks[..|ks|] == ks;
    SeqSumSorted(h.Keys, WeightOf(h));
  }

  /** With no negative words the running count never decreases. */
  lemma {:induction false} RunningMonotone(h: Histogram, ks: seq<int>, i: nat, j: nat)
    requires 1 in h && i <= j <= |ks|
    requires forall t :: 0 <= t < |ks| ==> Weight(h, ks[t]) >= 0
    ensures Running(h, ks, i) <= Running(h, ks, j)
    decreases j
  {
    if i < j {
      RunningMonotone(h, ks, i, j - 1);
      RunningStep(h, ks, j - 1);
    }
  }

  /** Histograms whose entries contribute no negative words. */
  predicate NonNegativeWords(h: Histogram) {
    forall k :: k in h ==> Weight(h, k) >= 0
  }

  /** The last of the ascending keys is the largest occurrence. */
  lemma LastKeyIsMax(h: Histogram)
    requires h != map[]
    ensures var ks := SortedSet(h.Keys); |ks| > 0 && ks[|ks| - 1] == MaxKey(h)
  {
    SortedSetLast(h.Keys);
  }

  /** A draw selects an occurrence of the histogram exactly when it is
      below `h[1]` plus the total word count; any larger draw falls off the
      end and selects one past the largest occurrence. */
  lemma SelectKeyInHistogram(h: Histogram, x: int)
    requires 1 in h && NonNegativeWords(h)
    ensures SelectKey(h, x).Ok?
    ensures SelectKey(h, x).value in h <==> x < h[1] + NumKmerWords(h)
    ensures x >= h[1] + NumKmerWords(h) ==> SelectKey(h, x).value == MaxKey(h) + 1
  {
    var ks := SortedSet(h.Keys);
    LastKeyIsMax(h);
    RunningTotal(h);
    var last := |ks| - 1;
    assert Through(h, ks, last) == h[1] + NumKmerWords(h);
    if x < h[1] + NumKmerWords(h) {
      assert !NoneExceeds(h, ks, 0, x);
    } else {
      SelectPastEnd(h, x);
    }
  }

  /** Once the final running count is at most `x`, no earlier one exceeds it. */
  lemma NoneExceedsBelowTotal(h: Histogram, ks: seq<int>, x: int)
    requires 1 in h
    requires forall t :: 0 <= t < |ks| ==> Weight(h, ks[t]) >= 0
    requires Running(h, ks, |ks|) <= x
    ensures NoneExceeds(h, ks, 0, x)
  {
    forall u | 0 <= u < |ks| ensures Through(h, ks, u) <= x {
      RunningMonotone(h, ks, u + 1, |ks|);
    }
  }

  /** A draw at or past the final running count selects one past the last key. */
  lemma SelectAfterTotal(h: Histogram, x: int)
    requires 1 in h && NonNegativeWords(h)
    requires var ks := SortedSet(h.Keys); Running(h, ks, |ks|) <= x
    ensures var ks := SortedSet(h.Keys); SelectKey(h, x).Ok? && SelectKey(h, x).value == ks[|ks| - 1] + 1
  {
    var ks := SortedSet(h.Keys);
    SortedWeightsNonNegative(h);
    NoneExceedsBelowTotal(h, ks, x);
    assert SelectKey(h, x).Ok?;
  }

  lemma SelectPastEnd(h: Histogram, x: int)
    requires 1 in h && NonNegativeWords(h)
    requires x >= h[1] + NumKmerWords(h)
    ensures SelectKey(h, x).Ok? && SelectKey(h, x).value == MaxKey(h) + 1
    ensures MaxKey(h) + 1 !in h
  {
    RunningTotal(h);
    SelectAfterTotal(h, x);
    LastKeyIsMax(h);
  }

  lemma SortedWeightsNonNegative(h: Histogram)
    requires NonNegativeWords(h)
    ensures var ks := SortedSet(h.Keys); forall t :: 0 <= t < |ks| ==> Weight(h, ks[t]) >= 0
  {
    var ks := SortedSet(h.Keys);
    forall t | 0 <= t < |ks| ensures Weight(h, ks[t]) >= 0 {
      assert ks[t] in h;
    }
  }

  /** A draw below the first running count selects the smallest key. */
  lemma SelectFirstKey(h: Histogram, x: int)
    requires 1 in h && Through(h, SortedSet(h.Keys), 0) > x
    ensures SelectKey(h, x) == Ok(SortedSet(h.Keys)[0])
  {
    var ks := SortedSet(h.Keys);
    var r := SelectKey(h, x);
    assert !NoneExceeds(h, ks, 0, x);
    var t :| FirstExceeding(h, ks, 0, t, x) && r.value == ks[t];
    assert t == 0;
  }

  /** Seeding the count with `h[1]` counts occurrence 1 twice: in
      {1: 5, 2: 1}, whose 7 words include 2 at occurrence 2, every draw
      from 1 to 7 selects occurrence 1. */
  lemma SeededCountSkipsOccurrenceTwo(x: int)
    requires 1 <= x <= 7
    ensures NumKmerWords(map[1 := 5, 2 := 1]) == 7
    ensures SelectKey(map[1 := 5, 2 := 1], x) == Ok(1)
  {
    ExampleWords();
    ExampleFirstCount();
    SelectFirstKey(map[1 := 5, 2 := 1], x);
  }

  lemma ExampleWords()
    ensures NumKmerWords(map[1 := 5, 2 := 1]) == 7
  {
    var h := map[1 := 5, 2 := 1];
    assert h.Keys == {1, 2};
    SumRemove({1, 2}, WeightOf(h), 1);
    assert {1, 2} - {1} == {2};
    SumRemove({2}, WeightOf(h), 2);
    assert {2} - {2} == {};
  }

  lemma ExampleFirstCount()
    ensures var h := map[1 := 5, 2 := 1];
      |SortedSet(h.Keys)| == 2 && SortedSet(h.Keys)[0] == 1 && Through(h, SortedSet(h.Keys), 0) == 10
  {
    var h := map[1 := 5, 2 := 1];
    assert h.Keys == {1, 2};
    var ks := SortedSet(h.Keys);
    assert SetMin({1, 2}) == 1;
    assert ks[0] == 1;
    assert ks[..1] == [1];
    assert SeqSum([1], WeightOf(h)) == WeightOf(h)(1) + SeqSum([], WeightOf(h));
  }

  /** One more draw of occurrence `j`: `sample[j] = sample.get(j, 0) + 1`. */
  function Tally(sample: map<int, int>, j: int): (r: map<int, int>)
    ensures r.Keys == sample.Keys + {j}
    ensures r[j] == (if j in sample then sample[j] else 0) + 1
    ensures forall k :: k in sample && k != j ==> r[k] == sample[k]
  {
    sample[j := (if j in sample then sample[j] else 0) + 1]
  }

  /** Tallies the drawn occurrences in order: the sample counts each
      occurrence as often as it was drawn. */
  function TallyAll(js: seq<int>): (m: map<int, int>)
    ensures forall k :: k in m <==> k in js
    ensures forall k :: k in m ==> m[k] == multiset(js)[k]
    decreases |js|
  {
    if |js| == 0 then map[]
    else
      var front := js[..|js| - 1];
      var j := js[|js| - 1];
      assert js == front + [j];
      Tally(TallyAll(front), j)
  }

  /** The chosen occurrence for each draw. The choice fails only when
      occurrence 1 is missing, whatever the draw, so the first draw raises
      KeyError in that case. */
  function Selections(h: Histogram, draws: seq<int>): (r: Result<seq<int>, Fault>)
    ensures r.Err? <==> |draws| > 0 && 1 !in h
    ensures r.Err? ==> r.error == KeyError
    ensures r.Ok? ==> |r.value| == |draws| && forall i :: 0 <= i < |draws| ==> SelectKey(h, draws[i]) == Ok(r.value[i])
  {
    if 1 !in h then
      if |draws| == 0 then Ok([]) else Err(KeyError)
    else
      Ok(seq(|draws|, i requires 0 <= i < |draws| => SelectKey(h, draws[i]).value))
  }

  /** `generate_sample`: `draws` are the values `random.randint(1, total)`
      returned, one per iteration. `randint` raises ValueError when the
      histogram holds no word; `hist_dict[1]` then raises KeyError when
      occurrence 1 is missing. */
  function GenerateSample(h: Histogram, draws: seq<int>): (r: Result<map<int, int>, Fault>)
    ensures |draws| == 0 ==> r == Ok(map[])
    ensures |draws| > 0 && NumKmerWords(h) < 1 ==> r == Err(ValueError)
    ensures |draws| > 0 && NumKmerWords(h) >= 1 && 1 !in h ==> r == Err(KeyError)
    // otherwise the sample is drawn: with words and occurrence 1 nothing raises
    ensures r.Ok? <==> |draws| == 0 || (NumKmerWords(h) >= 1 && 1 in h)
    ensures r.Ok? ==> Selections(h, draws).Ok?
    ensures r.Ok? ==> var js := Selections(h, draws).value;
      forall k :: (k in r.value <==> k in js) && (k in r.value ==> r.value[k] == multiset(js)[k])
  {
    if |draws| == 0 then Ok(map[])
    else if NumKmerWords(h) < 1 then Err(ValueError)
    else
      var js :- Selections(h, draws);
      Ok(TallyAll(js))
  }

  /** Number of draws a sample records: the sum of its frequencies. */
  function SampleSize(m: map<int, int>): int {
    SumOver(m.Keys, k => if k in m then m[k] else 0)
  }

  /** One more draw adds one to the sample's size. */
  lemma TallySize(m: map<int, int>, j: int)
    ensures SampleSize(Tally(m, j)) == SampleSize(m) + 1
  {
    var m' := Tally(m, j);
    var f := k => if k in m then m[k] else 0;
    var f' := k => if k in m' then m'[k] else 0;
    SumRemove(m'.Keys, f', j);
    assert forall k :: k in m'.Keys - {j} ==> f'(k) == f(k);
    SumCongruent(m'.Keys - {j}, f', f);
    if j in m {
      SumRemove(m.Keys, f, j);
      assert m'.Keys - {j} == m.Keys - {j};
    } else {
      assert m'.Keys - {j} == m.Keys;
    }
  }

  lemma {:induction false} TallyAllSize(js: seq<int>)
    ensures SampleSize(TallyAll(js)) == |js|
    decreases |js|
  {
    if |js| > 0 {
      var front := js[..|js| - 1];
      TallyAllSize(front);
      TallySize(TallyAll(front), js[|js| - 1]);
    }
  }

  /** A sample of n draws records n draws. */
  lemma GenerateSampleSize(h: Histogram, draws: seq<int>)
    requires GenerateSample(h, draws).Ok?
    ensures SampleSize(GenerateSample(h, draws).value) == |draws|
  {
    if |draws| > 0 {
      TallyAllSize(Selections(h, draws).value);
    } else {
      assert GenerateSample(h, draws).value == map[];
      assert map[] == TallyAll([]);
      TallyAllSize([]);
    }
  }
}

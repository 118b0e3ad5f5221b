/** The k-mer histogram (occurrence count -> number of distinct k-mer words
    seen that many times), its densification and its total word count. */
module Histograms {
  import opened Results
  import opened OrderedKeys

  type Histogram = map<int, int>

  function MaxKey(h: Histogram): (m: int)
    requires h != map[]
    ensures m in h
    ensures forall k :: k in h ==> k <= m
  {
    SetMax(h.Keys)
  }

  /** Fills the gaps of `h`: every occurrence 1 .. MaxKey(h) - 1 that has no
      frequency gets frequency 0. Python's `sorted(keys)[-1]` raises
      IndexError on an empty histogram. */
  function PadData(h: Histogram): (r: Result<Histogram, Fault>)
    ensures h == map[] <==> r == Err(IndexError)
    ensures r.Ok? ==> forall k :: 1 <= k < MaxKey(h) ==> k in r.value
    ensures r.Ok? ==> forall k :: k in h ==> k in r.value && r.value[k] == h[k]
    ensures r.Ok? ==> forall k :: k in r.value && k !in h ==> r.value[k] == 0
    ensures r.Ok? ==> forall k :: k in r.value ==> k in h || 1 <= k < MaxKey(h)
  {
    if h == map[] then Err(IndexError)
    else
      var top := MaxKey(h);
      Ok(h + map k | 1 <= k < top && k !in h :: 0)
  }

  /** Padding keeps the largest occurrence, so padding twice pads once. */
  lemma PadDataIdempotent(h: Histogram)
    requires h != map[]
    ensures PadData(h).Ok? && PadData(PadData(h).value) == PadData(h)
  {
    var p := PadData(h).value;
    assert MaxKey(p) == MaxKey(h);
    assert PadData(p).value == p;
  }

  /** A histogram whose occurrences already cover 1 .. max - 1 is returned unchanged. */
  lemma PadDataOfDense(h: Histogram)
    requires h != map[]
    requires forall k :: 1 <= k < MaxKey(h) ==> k in h
    ensures PadData(h) == Ok(h)
  {
    var p := PadData(h).value;
    assert forall k :: k in p <==> k in h;
    assert p == h;
  }

  /** Contribution of one occurrence to the number of k-mer words. */
  function Weight(h: Histogram, k: int): int {
    if k in h then k * h[k] else 0
  }

  function WeightOf(h: Histogram): int -> int {
    k => Weight(h, k)
  }

  /** Sum of occurrence * frequency over the histogram. */
  function NumKmerWords(h: Histogram): int {
    SumOver(h.Keys, WeightOf(h))
  }

  /** Entries of frequency zero add nothing, so padding does not change the
      total; this is why the genome size may be computed on the padded
      histogram that `find_extrema` leaves behind. */
  lemma {:induction false} NumKmerWordsPadded(h: Histogram)
    requires h != map[]
    ensures PadData(h).Ok? && NumKmerWords(PadData(h).value) == NumKmerWords(h)
  {
    var p := PadData(h).value;
    assert forall k :: WeightOf(p)(k) == WeightOf(h)(k);
    SumCongruent(p.Keys, WeightOf(p), WeightOf(h));
    SumZeroExtension(h.Keys, p.Keys, WeightOf(h));
  }

  lemma {:induction false} NumKmerWordsNonNegative(h: Histogram)
    requires forall k :: k in h ==> k >= 0 && h[k] >= 0
    ensures NumKmerWords(h) >= 0
  {
    SumNonNegative(h.Keys, WeightOf(h));
  }

  /** The histogram of the genome-size example: 1*100 + 5*40 + 10*5 = 350. */
  lemma {:induction false} NumKmerWordsExample()
    ensures NumKmerWords(map[1 := 100, 5 := 40, 10 := 5]) == 350
  {
    var h := map[1 := 100, 5 := 40, 10 := 5];
    var w := WeightOf(h);
    assert h.Keys == {1, 5, 10};
    SumRemove({1, 5, 10}, w, 1);
    assert {1, 5, 10} - {1} == {5, 10};
    SumRemove({5, 10}, w, 5);
    assert {5, 10} - {5} == {10};
    SumRemove({10}, w, 10);
    assert {10} - {10} == {};
  }
}

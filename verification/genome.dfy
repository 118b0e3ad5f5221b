/** `compute_genome_size`: the genome size of each k-mer histogram is its
    number of k-mer words divided by the index of its first peak, that is
    the peak's position in the histogram's list of values (`argrelextrema`
    reports positions, not occurrences). */
module Genome {
  import opened Results
  import opened OrderedKeys
  import opened Histograms
  import opened ExtremaWalk
  import opened Search

  /** Python 2 `/` on integers: the quotient rounded toward negative infinity. */
  function FloorDiv(a: int, m: int): int
    requires m != 0
  {
    if m > 0 then a / m else (-a) / (-m)
  }

  /** The quotient is the largest q with q * m at or below a (for a
      positive divisor) or at or above it (for a negative one). */
  lemma FloorDivBrackets(a: int, m: int)
    requires m != 0
    ensures m > 0 ==> m * FloorDiv(a, m) <= a < m * (FloorDiv(a, m) + 1)
    ensures m < 0 ==> m * FloorDiv(a, m) >= a > m * (FloorDiv(a, m) + 1)
  {
  }

  /** Genome size of one histogram, given `found = find_extrema(h, 3)`:
      the word count over `found['Max'][0]`, which the source calls the
      mode but which is the first peak's index in the value list: on a
      histogram padded from occurrence 1, index i stands for occurrence
      i + 1. The source counts the words of the histogram that
      `find_extrema` has padded in place;
      `NumKmerWordsPadded` shows the padding leaves the count unchanged, so
      the count is taken on `h`. */
  function GenomeSize(h: Histogram, found: Result<Extrema, Fault>): (r: Result<int, Fault>)
    ensures found.Err? ==> r == Err(found.error)
    ensures found.Ok? && found.value.maxs == [] ==> r == Err(IndexError)
    ensures found.Ok? && found.value.maxs != [] && found.value.maxs[0] == 0 ==> r == Err(ZeroDivisionError)
    ensures r.Ok? ==> found.Ok? && found.value.maxs != [] && found.value.maxs[0] != 0
  {
    var ex :- found;
    if ex.maxs == [] then Err(IndexError)
    else if ex.maxs[0] == 0 then Err(ZeroDivisionError)
    else Ok(FloorDiv(NumKmerWords(h), ex.maxs[0]))
  }

  /** What `find_extrema(h, 3)` guarantees to its caller: it fails on an
      empty histogram, and otherwise finds a first maximum at index 3 or
      more of the value list. */
  predicate PeakFound(h: Histogram, found: Result<Extrema, Fault>) {
    found.Ok? ==> h != map[] && found.value.maxs != [] && found.value.maxs[0] >= 3
  }

  lemma FindExtremaFindsPeak(h: Histogram, detect: Detector, border: real, fuel: nat)
    ensures PeakFound(h, FindExtrema(h, MainSearch(detect, border, fuel), 3))
  {
  }

  /** Behind a found peak the genome size fails only with `find_extrema`,
      and is otherwise the largest g such that g copies of the peak index
      hold at most the histogram's words. */
  lemma GenomeSizeOfPeak(h: Histogram, found: Result<Extrema, Fault>)
    requires PeakFound(h, found)
    ensures GenomeSize(h, found).Err? <==> found.Err?
    ensures found.Ok? ==>
      var g := GenomeSize(h, found).value;
      var mode := found.value.maxs[0];
      mode * g <= NumKmerWords(h) < mode * (g + 1)
  {
    if found.Ok? {
      FloorDivBrackets(NumKmerWords(h), found.value.maxs[0]);
    }
  }

  /** The genome sizes for `sizes`, in order; the first exception propagates. */
  function SizesFrom(hists: map<int, Histogram>, found: int -> Result<Extrema, Fault>, sizes: seq<int>): (r: Result<seq<(int, int)>, Fault>)
    requires forall i :: 0 <= i < |sizes| ==> sizes[i] in hists
    ensures r.Ok? ==> |r.value| == |sizes|
    ensures r.Ok? ==> forall i :: 0 <= i < |sizes| ==>
      r.value[i].0 == sizes[i] && GenomeSize(hists[sizes[i]], found(sizes[i])) == Ok(r.value[i].1)
    ensures r.Err? ==> exists i :: 0 <= i < |sizes| && GenomeSize(hists[sizes[i]], found(sizes[i])) == Err(r.error)
    decreases |sizes|
  {
    if |sizes| == 0 then Ok([])
    else
      var g :- GenomeSize(hists[sizes[0]], found(sizes[0]));
      var rest :- SizesFrom(hists, found, sizes[1..]);
      Ok([(sizes[0], g)] + rest)
  }

  /** The error of `SizesFrom` is that of the first size whose genome size
      fails: every earlier size succeeds. */
  lemma {:induction false} SizesFromFirstFailure(hists: map<int, Histogram>, found: int -> Result<Extrema, Fault>, sizes: seq<int>)
    requires forall i :: 0 <= i < |sizes| ==> sizes[i] in hists
    ensures var r := SizesFrom(hists, found, sizes);
      r.Err? ==> exists i ::
        && 0 <= i < |sizes|
        && GenomeSize(hists[sizes[i]], found(sizes[i])) == Err(r.error)
        && forall j :: 0 <= j < i ==> GenomeSize(hists[sizes[j]], found(sizes[j])).Ok?
    decreases |sizes|
  {
    if |sizes| > 0 && GenomeSize(hists[sizes[0]], found(sizes[0])).Ok? {
      var g := GenomeSize(hists[sizes[0]], found(sizes[0])).value;
      var tail := sizes[1..];
      var rest := SizesFrom(hists, found, tail);
      assert SizesFrom(hists, found, sizes) == if rest.Err? then Err(rest.error) else Ok([(sizes[0], g)] + rest.value);
      if rest.Err? {
        SizesFromFirstFailure(hists, found, tail);
        var i :| 0 <= i < |tail| && GenomeSize(hists[tail[i]], found(tail[i])) == Err(rest.error)
          && forall j :: 0 <= j < i ==> GenomeSize(hists[tail[j]], found(tail[j])).Ok?;
        forall j | 0 <= j < i + 1 ensures GenomeSize(hists[sizes[j]], found(sizes[j])).Ok? {
          if j > 0 {
            assert sizes[j] == tail[j - 1];
          }
        }
        assert sizes[i + 1] == tail[i];
      }
    }
  }

  /** The k-mer sizes of a list of (k-mer size, genome size) pairs. */
  function SizesOf(pairs: seq<(int, int)>): (ks: seq<int>)
    ensures |ks| == |pairs|
    ensures forall i :: 0 <= i < |pairs| ==> ks[i] == pairs[i].0
  {
    seq(|pairs|, i requires 0 <= i < |pairs| => pairs[i].0)
  }

  /** `compute_genome_size`: the (k-mer size, genome size) pairs of the
      histograms in ascending order of k-mer size; the first exception
      propagates. `found(size)` is `find_extrema(hists[size], 3)`. */
  function ComputeGenomeSizes(hists: map<int, Histogram>, found: int -> Result<Extrema, Fault>): Result<seq<(int, int)>, Fault> {
    var sizes := SortedSet(hists.Keys);
    SortedSizesPresent(hists, sizes);
    SizesFrom(hists, found, sizes)
  }

  /** Every k-mer size of the sorted key list is a key of the histograms. */
  lemma SortedSizesPresent(hists: map<int, Histogram>, sizes: seq<int>)
    requires sizes == SortedSet(hists.Keys)
    ensures forall i :: 0 <= i < |sizes| ==> sizes[i] in hists
  {
    forall i | 0 <= i < |sizes| ensures sizes[i] in hists {
      assert sizes[i] in sizes;
    }
  }

  /** `compute_genome_size` reports every k-mer size once, in ascending
      order. */
  lemma ComputeGenomeSizesInOrder(hists: map<int, Histogram>, found: int -> Result<Extrema, Fault>)
    ensures var r := ComputeGenomeSizes(hists, found);
      r.Ok? ==> SizesOf(r.value) == SortedSet(hists.Keys)
  {
    var sizes := SortedSet(hists.Keys);
    SortedSizesPresent(hists, sizes);
    var r := ComputeGenomeSizes(hists, found);
    assert r == SizesFrom(hists, found, sizes);
    if r.Ok? {
      var ks := SizesOf(r.value);
      assert |ks| == |sizes|;
      assert forall i :: 0 <= i < |ks| ==> ks[i] == sizes[i];
    }
  }

  /** Each reported pair holds its k-mer size's genome size. */
  lemma ComputeGenomeSizesValues(hists: map<int, Histogram>, found: int -> Result<Extrema, Fault>)
    ensures var r := ComputeGenomeSizes(hists, found);
      r.Ok? ==> forall i :: 0 <= i < |r.value| ==>
        r.value[i].0 in hists && GenomeSize(hists[r.value[i].0], found(r.value[i].0)) == Ok(r.value[i].1)
  {
    var sizes := SortedSet(hists.Keys);
    var r := ComputeGenomeSizes(hists, found);
    if r.Ok? {
      forall i | 0 <= i < |r.value| ensures r.value[i].0 in hists {
        assert r.value[i].0 == sizes[i] && sizes[i] in sizes;
      }
    }
  }

  /** `compute_genome_size` raises exactly when one of its genome sizes
      does, and then with that genome size's exception. */
  lemma ComputeGenomeSizesFails(hists: map<int, Histogram>, found: int -> Result<Extrema, Fault>)
    ensures var r := ComputeGenomeSizes(hists, found);
      && (r.Err? <==> exists size :: size in hists && GenomeSize(hists[size], found(size)).Err?)
      && (r.Err? ==> exists size :: size in hists && GenomeSize(hists[size], found(size)) == Err(r.error))
  {
    var sizes := SortedSet(hists.Keys);
    var r := SizesFrom(hists, found, sizes);
    if r.Ok? {
      forall size | size in hists ensures GenomeSize(hists[size], found(size)).Ok? {
        var i :| 0 <= i < |sizes| && sizes[i] == size;
        assert GenomeSize(hists[sizes[i]], found(sizes[i])) == Ok(r.value[i].1);
      }
    } else {
      var i :| 0 <= i < |sizes| && GenomeSize(hists[sizes[i]], found(sizes[i])) == Err(r.error);
      assert sizes[i] in sizes;
    }
  }

  /** The exception is that of the smallest k-mer size whose genome size
      fails: every smaller k-mer size succeeds. */
  lemma ComputeGenomeSizesFirstFailure(hists: map<int, Histogram>, found: int -> Result<Extrema, Fault>)
    ensures var r := ComputeGenomeSizes(hists, found);
      r.Err? ==> exists size ::
        && size in hists
        && GenomeSize(hists[size], found(size)) == Err(r.error)
        && forall smaller :: smaller in hists && smaller < size ==> GenomeSize(hists[smaller], found(smaller)).Ok?
  {
    var sizes := SortedSet(hists.Keys);
    SortedSizesPresent(hists, sizes);
    var r := SizesFrom(hists, found, sizes);
    assert ComputeGenomeSizes(hists, found) == r;
    if r.Err? {
      SizesFromFirstFailure(hists, found, sizes);
      var i :| 0 <= i < |sizes| && GenomeSize(hists[sizes[i]], found(sizes[i])) == Err(r.error)
        && forall j :: 0 <= j < i ==> GenomeSize(hists[sizes[j]], found(sizes[j])).Ok?;
      assert sizes[i] in sizes;
      forall smaller | smaller in hists && smaller < sizes[i]
        ensures GenomeSize(hists[smaller], found(smaller)).Ok?
      {
        assert smaller in sizes;
        SmallerStandsBefore(sizes, i, smaller);
      }
    }
  }
}

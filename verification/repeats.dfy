/** The run detection in `find_repeats`: in the shredded reads' mapping
    lines, whose third fields name the reference sequence a read maps to, a
    run of exactly `n` consecutive lines with the same third field marks a
    region repeated `n` times. */
module Repeats {
  import opened OrderedKeys

  /** Line `i` starts a run of exactly `n` equal third fields: lines
      i+1 .. i+n-1 agree with line i, and the lines just before and just
      after differ from it. */
  predicate ExactRunAt(keys: seq<string>, n: nat, i: int)
    requires 1 <= i && i + n < |keys|
  {
    && (forall x :: i < x < i + n ==> keys[x] == keys[i])
    && keys[i] != keys[i - 1]
    && keys[i] != keys[i + n]
  }

  /** The starts found by `for i in xrange(from, len(data) - n)`, in order. */
  function StartsFrom(keys: seq<string>, n: nat, from: nat): (starts: seq<int>)
    requires from >= 1
    ensures forall k :: 0 <= k < |starts| ==> from <= starts[k] && starts[k] + n < |keys|
    ensures forall k :: 0 <= k < |starts| ==> ExactRunAt(keys, n, starts[k])
    ensures forall i :: from <= i && i + n < |keys| && ExactRunAt(keys, n, i) ==> i in starts
    ensures StrictlyAscending(starts)
    decreases |keys| - from
  {
    if from + n >= |keys| then []
    else
      var rest := StartsFrom(keys, n, from + 1);
      if ExactRunAt(keys, n, from) then
        AscendingCons(from, rest);
        [from] + rest
      else rest
  }

  /** Every line that starts a run of exactly `n` lines, the first and last
      lines excluded (each run needs a differing neighbour on both sides). */
  function RunStarts(keys: seq<string>, n: nat): (starts: seq<int>)
    ensures StrictlyAscending(starts)
  {
    StartsFrom(keys, n, 1)
  }

  /** A line is reported exactly when it starts a run of exactly `n`. */
  lemma RunStartsExact(keys: seq<string>, n: nat, i: int)
    ensures i in RunStarts(keys, n) <==> 1 <= i && i + n < |keys| && ExactRunAt(keys, n, i)
  {
    var starts := RunStarts(keys, n);
    if i in starts {
      var k :| 0 <= k < |starts| && starts[k] == i;
    }
  }

  /** Two reported runs never overlap: a later start lies at least `n`
      lines after an earlier one, because inside a run every line equals
      its predecessor. */
  lemma RunsDisjoint(keys: seq<string>, n: nat, a: int, b: int)
    requires a < b
    requires 1 <= a && a + n < |keys| && ExactRunAt(keys, n, a)
    requires 1 <= b && b + n < |keys| && ExactRunAt(keys, n, b)
    ensures a + n <= b
  {
  }

  /** The indices of the lines written for each start: lines start .. start+n-1. */
  function WrittenFrom(starts: seq<int>, n: nat): (lines: seq<int>)
    ensures |lines| == |starts| * n
    decreases |starts|
  {
    if |starts| == 0 then []
    else
      var block := seq(n, x requires 0 <= x < n => starts[0] + x);
      block + WrittenFrom(starts[1..], n)
  }

  /** The lines `find_repeats` copies into the `shred_<n>_repeats` file. */
  function WrittenLines(keys: seq<string>, n: nat): (lines: seq<int>)
  {
    WrittenFrom(RunStarts(keys, n), n)
  }

  /** Starts at least `n` apart yield each line once, in order. */
  lemma {:induction false} WrittenFromAscending(starts: seq<int>, n: nat)
    requires forall k :: 0 <= k < |starts| - 1 ==> starts[k] + n <= starts[k + 1]
    ensures StrictlyAscending(WrittenFrom(starts, n))
    ensures |starts| > 0 ==> forall y :: y in WrittenFrom(starts, n) ==> starts[0] <= y
    decreases |starts|
  {
    if |starts| > 0 {
      var block := seq(n, x requires 0 <= x < n => starts[0] + x);
      var rest := WrittenFrom(starts[1..], n);
      WrittenFromAscending(starts[1..], n);
      var lines := block + rest;
      assert forall y :: y in rest ==> starts[0] + n <= y by {
        if |starts| > 1 {
          assert forall y :: y in rest ==> starts[1] <= y;
        }
      }
      forall i, j | 0 <= i < j < |lines| ensures lines[i] < lines[j] {
        if j >= n && i < n {
          assert lines[j] in rest;
        }
      }
    }
  }

  /** No mapping line is written twice for the same `n`. */
  lemma WrittenLinesAscending(keys: seq<string>, n: nat)
    ensures StrictlyAscending(WrittenLines(keys, n))
  {
    var starts := RunStarts(keys, n);
    forall k | 0 <= k < |starts| - 1 ensures starts[k] + n <= starts[k + 1] {
      RunStartsExact(keys, n, starts[k]);
      RunStartsExact(keys, n, starts[k + 1]);
      RunsDisjoint(keys, n, starts[k], starts[k + 1]);
    }
    WrittenFromAscending(starts, n);
  }

  /** A run at the very start or the very end of the file is never reported:
      three lines "a", "a", "b" hold a run of exactly two at the front. */
  lemma EdgeRunsMissed()
    ensures RunStarts(["a", "a", "b"], 2) == []
  {
  }
}

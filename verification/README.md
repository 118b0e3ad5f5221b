# k_mer_tools: the histogram analysis and the masked-region extractor, in Dafny

This project models two parts of k_mer_tools, a toolkit that studies k-mer
count histograms. A histogram maps an occurrence count to the number of
distinct k-mer words seen that often.

- **The histogram analysis** (`src/main.py`):
  - `pad_data` fills the gaps of a histogram.
  - `estimate_extrema` walks the candidate minima and maxima in alternation.
  - `calculate_ex_score` scores how periodic a set of extrema is.
  - `ranges_from_extrema` trims the peak ranges between consecutive minima.
  - `find_extrema_main` hill-climbs over the smoothing parameters.
  - `find_extrema` keeps the best of several peak counts.
  - `compute_num_kmer_words` and `compute_genome_size` estimate a genome's size.
  - `generate_sample` resamples a histogram.
  - `find_repeats` detects runs of exactly n equal mapping targets.
- **The masked-region extractor** (`src/QC/extract_from_mask.c`) reads a
  reference FASTA file and a file of `name start end` lines, and prints the
  bases of each location that covers at least 100 bases.

Modules, one per file:

| file | module | models |
|---|---|---|
| results.dfy | `Results` | `Result`/`Option`, Python exceptions as `Fault`, `Max` |
| ordered_keys.dfy | `OrderedKeys` | ascending key order of small-integer dictionaries, sums over it |
| histogram.dfy | `Histograms` | `pad_data`, `compute_num_kmer_words` |
| ranges.dfy | `PeakRanges` | `ranges_from_extrema`, Python's `int()` on floats |
| walk.dfy | `ExtremaWalk` | the walk of `estimate_extrema` |
| score.dfy | `Scoring` | `calculate_ex_score` |
| search.dfy | `Search` | `find_extrema_main`, `find_extrema` |
| genome.dfy | `Genome` | `compute_genome_size` |
| sampler.dfy | `Sampler` | `generate_sample` |
| repeats.dfy | `Repeats` | the run-of-exactly-n test of `find_repeats` |
| mask_text.dfy | `MaskText` | scanning, location lines, `strtok`/`strtoul` |
| mask_reference.dfy | `MaskReference` | `get_chromo_name`, the chromosome seek, the move and copy loops |
| mask_run.dfy | `MaskRun` | `main`'s loop over the locations |

How the model represents the source:

- **Python exceptions** are values: `Err(IndexError)`, `Err(KeyError)`,
  `Err(ZeroDivisionError)`, `Err(ValueError)` and `Err(ExtremaNotFound)` (the
  "Could not find suitable extrema" exception).
- **Each C `exit(EXIT_FAILURE)`** is an `Err` of `MaskError` that names the
  message.
- **Files** are character sequences read front to back; `getc` returning EOF
  means the end of the sequence has been reached.
- **Iteration order.** The model visits a dictionary's keys in ascending
  order. This is an assumption about CPython 2, not a fact about it. CPython 2
  visits integer keys in the order of their hash-table slots, and key k sits
  in slot k only while k is below the table size. So the order is ascending
  for dense keys such as the 1 .. max that `pad_data` leaves, but not in
  general: `{1: _, 5: _, 10: _}` is visited as 1, 10, 5. The order matters in
  `generate_sample` (lines 479-485), which receives the histogram unpadded,
  and in the order of `compute_genome_size`'s list (line 402). Sums such as
  `compute_num_kmer_words` do not depend on it.
- **Floats** (`desired_border`, the scores) are exact reals. `float("inf")`
  is the `Infinite` score.
- **`unsigned long`/`size_t` arithmetic** wraps modulo 2^64 where the result
  depends on it.

## Model

| member | source | states |
|---|---|---|
| OrderedKeys.SortedSet | src/main.py:481 | the keys in the order the loop visits them: strictly ascending, holding exactly the dictionary's keys |
| OrderedKeys.SeqSumSorted | src/main.py:461 | summing in ascending key order gives the order-free sum over the keys |
| OrderedKeys.SortedSetLast | src/main.py:393 | `sorted(hist_dict.keys())[-1]` is the largest key |
| Histograms.MaxKey | src/main.py:393 | the largest occurrence is a key and no key exceeds it |
| Histograms.PadData | src/main.py:382-396 | IndexError exactly for an empty histogram; otherwise every occurrence 1 .. max-1 is present, old entries keep their frequency, added ones are 0, and no other key appears |
| Histograms.PadDataIdempotent | src/main.py:382-396 | padding twice equals padding once |
| Histograms.PadDataOfDense | src/main.py:382-396 | a histogram that already covers 1 .. max-1 comes back unchanged |
| Histograms.NumKmerWordsPadded | src/main.py:329 | the in-place padding by `find_extrema` does not change the word count that `compute_genome_size` reads afterwards |
| Histograms.NumKmerWordsNonNegative | src/main.py:458-463 | with non-negative keys and frequencies the word count is non-negative |
| Histograms.NumKmerWordsExample | src/main.py:458-463 | {1:100, 5:40, 10:5} holds 350 words |
| PeakRanges.Trunc | src/main.py:164 | `int()` truncates toward zero: the result is within 1 of x, on x's side of 0 |
| PeakRanges.TruncBetween | src/main.py:164 | truncating a value between two integers stays between them |
| PeakRanges.CutAtMostHalf | src/main.py:162-163 | with a border in [0, 1/2] each side loses a non-negative amount, at most half the width in total |
| PeakRanges.TrimPairWithin | src/main.py:157-164 | a trimmed range stays inside its pair of minima, lower end at or below upper end |
| PeakRanges.RangesFromExtrema | src/main.py:150-166 | the first pair's range is dropped: len(Min)-2 ranges, range k being the trimmed (Min[k+1], Min[k+2]) |
| PeakRanges.RangesWithinMinima | src/main.py:150-166 | for ascending minima and a border at most 1/2, range k lies in [Min[k+1], Min[k+2]] and consecutive ranges do not overlap |
| PeakRanges.RangesZeroBorder | src/main.py:150-166 | with border 0 the ranges are exactly the later pairs of minima |
| Scoring.AllInside | src/main.py:260-262 | the zip test holds iff every paired maximum lies strictly inside its range |
| Scoring.ExScore | src/main.py:244-273 | IndexError on no maxima; infinite exactly when Max[0] < 3 or a later maximum leaves its range; a finite score is non-negative and needs two maxima, two minima and Max[0] >= 3; a single undisqualified maximum gives ZeroDivisionError; any exception needs fewer than two maxima or minima |
| Scoring.DeviationSumZero | src/main.py:264-267 | maxima at exact multiples of Max[0] deviate by 0 |
| Scoring.WidthSumTelescopes | src/main.py:269-270 | the sum of gaps between minima is the last minimum minus the first |
| Scoring.PerfectProgressionScoresZero | src/main.py:264-268 | an undisqualified progression m, 2m, 3m, … scores 0.0 |
| Scoring.UniformMinimaScoreZero | src/main.py:269-271 | evenly spaced minima score 0.0 |
| ExtremaWalk.SkipMaxima | src/main.py:304-309 | skips exactly the maxima below the last minimum; the `else` branch runs iff a maximum at or above it remains |
| ExtremaWalk.SkipMinima | src/main.py:310-315 | skips the minima below the last maximum; stops at `len(max_list)`; IndexError only if the minima run out first |
| ExtremaWalk.Step | src/main.py:301-316 | one round appends at most one maximum (not below the last minimum), then at most one minimum (not below the last maximum), both taken from the candidates; IndexError when no maximum has been accepted and none remains to accept |
| ExtremaWalk.WalkFrom | src/main.py:299-318 | the loop keeps at most n maxima, at most n+1 minima, at most two more minima than maxima, the first minimum, and only candidates |
| ExtremaWalk.EstimateWalk | src/main.py:294-318 | IndexError on no candidate minimum, and otherwise the bounds of `WalkFrom` |
| ExtremaWalk.StepKeepsOrder | src/main.py:304-315 | with ascending candidates a round keeps both lists non-decreasing |
| ExtremaWalk.WalkFromOrdered | src/main.py:299-318 | the rest of the walk keeps both lists non-decreasing |
| ExtremaWalk.WalkOrdered | src/main.py:294-318 | ascending candidates give non-decreasing Min and Max lists |
| ExtremaWalk.MinLoopBoundRaises | src/main.py:310-313 | with 2 candidate minima and 3 maxima the walk raises IndexError, because the minima loop stops at `len(max_list)` |
| Search.Neighbours | src/main.py:348-352 | the current pair first, then the four neighbours; only pairs with positive components |
| Search.KeepPositive | src/main.py:352 | the filter keeps exactly the pairs with both components positive; a kept first pair stays first |
| Search.KeepPositiveKeepsOrder | src/main.py:348-352 | filtering a concatenation concatenates the filtered parts, and a single pair is kept iff both components are positive, so the kept pairs keep their order |
| Search.EvaluateAll | src/main.py:348-354 | every pair is scored in order; an error is that of the first pair whose scoring raises, all earlier pairs scoring without error |
| Search.BestIndex | src/main.py:356 | the head of a stable sort by score: no lower score exists, and every earlier score is higher |
| Search.BestFrom | src/main.py:356 | the scan keeps the first lowest score seen so far |
| Search.BestOfRound | src/main.py:356-358 | no pair scores below the head of the sorted scores, and that head is infinite iff every pair's score is |
| Search.Round | src/main.py:346-376 | an infinite stop happens only above window 1000, with empty extrema; any move other than (+10, +10) goes to a different neighbour with a strictly lower score than the current pair; a finite result is its extrema's score |
| Search.RoundFails | src/main.py:348-354 | a round raises iff scoring one of the pairs raises |
| Search.RoundCoarsens | src/main.py:358-362 | the round moves to (w+10, o+10) iff every pair scores infinite and w <= 1000 |
| Search.RoundGivesUp | src/main.py:358-360 | the round stops with an infinite score iff every pair scores infinite and w > 1000 |
| Search.RoundClimbs | src/main.py:356-376 | any other move goes to the head of the stable sort: the earliest neighbour with the lowest score |
| Search.RoundStopsAtLocalBest | src/main.py:365-373 | a finite stop returns the current pair's own extrema and score, with no neighbour scoring lower, unless the best score is exactly 0.0 |
| Search.Optimize | src/main.py:346-376 | an infinite result carries empty extrema; a finite one is its extrema's score and is a local optimum of some pair, or 0.0 |
| Search.FindExtremaMain | src/main.py:343-376 | the search from (10, 10) ends settled: empty extrema when infinite, at least two minima, two maxima and Max[0] >= 3 when finite; a finite result is a local optimum of the pair where the climb stopped, or scores 0.0 |
| Search.MainSearch | src/main.py:332 | the per-peak-count search used by `find_extrema` is always settled |
| Search.TryCounts | src/main.py:331-332 | one search per peak count max(2, n) .. n+3, in order; an error is that of the first count whose search raises, all smaller counts succeeding |
| Search.PyPrefix | src/main.py:340 | `s[:n]` is a prefix of s, of length min(n, len(s)), counting from the end for negative n |
| Search.PickWinner | src/main.py:333-340 | IndexError on no result; ExtremaNotFound iff the first lowest-scoring result has no maxima or no minima, and then every score was infinite; otherwise that result truncated to n maxima and n+1 minima |
| Search.FindExtrema | src/main.py:321-340 | IndexError on an empty histogram; otherwise the searches' first exception or the winner; for n >= 1, 1 to n maxima, 1 to n+1 minima and Max[0] >= 3 |
| Genome.FloorDivBrackets | src/main.py:406 | Python 2 integer `/` gives the largest q with q*m <= a for positive m (mirrored for negative m) |
| Genome.GenomeSize | src/main.py:404-406 | `find_extrema`'s exception propagates; no maximum gives IndexError and a first peak index Max[0] of 0 gives ZeroDivisionError |
| Genome.FindExtremaFindsPeak | src/main.py:404 | `find_extrema(h, 3)` succeeds only on a non-empty histogram, with a first maximum Max[0] at index 3 or more of the value list |
| Genome.GenomeSizeOfPeak | src/main.py:404-406 | behind a found peak the size fails only with `find_extrema`, and is the largest g with Max[0]*g <= words, Max[0] being the first peak's index |
| Genome.SizesFrom | src/main.py:402-407 | one (k, size) pair per k-mer size, in order; an error is one of the sizes' exceptions |
| Genome.SizesFromFirstFailure | src/main.py:402-407 | that error is the first size's whose genome size raises, all earlier sizes succeeding |
| Genome.ComputeGenomeSizesInOrder | src/main.py:399-409 | every k-mer size is reported once, in ascending order |
| Genome.ComputeGenomeSizesValues | src/main.py:399-409 | each reported pair holds its k-mer size's genome size |
| Genome.ComputeGenomeSizesFails | src/main.py:399-409 | the computation raises iff some histogram's genome size does, and then with that exception |
| Genome.ComputeGenomeSizesFirstFailure | src/main.py:399-409 | the exception is that of the smallest k-mer size whose genome size raises; every smaller size succeeds |
| Sampler.RunningStep | src/main.py:481-482 | each key adds occurrence * frequency to the running count |
| Sampler.SelectFrom | src/main.py:481-485 | the first key whose running count exceeds x is chosen; if none does, one past the last key |
| Sampler.SelectKey | src/main.py:479-485 | KeyError iff occurrence 1 is missing; otherwise the first key in ascending order whose running count (seeded with h[1]) exceeds x, or one past the last key |
| Sampler.RunningTotal | src/main.py:479-482 | after the last key the running count is h[1] plus all the histogram's words |
| Sampler.RunningMonotone | src/main.py:481-482 | with non-negative words the running count never decreases |
| Sampler.SelectKeyInHistogram | src/main.py:478-485 | a draw selects an occurrence of the histogram iff it is below h[1] plus the word count; larger draws select max+1 |
| Sampler.SelectAfterTotal | src/main.py:481-485 | a draw at or past the final running count selects one past the last key |
| Sampler.SelectPastEnd | src/main.py:481-485 | such a draw selects max+1, which is not an occurrence of the histogram |
| Sampler.SelectFirstKey | src/main.py:479-484 | a draw below the first running count selects the smallest key |
| Sampler.SeededCountSkipsOccurrenceTwo | src/main.py:479-484 | in {1: 5, 2: 1} (7 words) every draw 1 .. 7 selects occurrence 1: occurrence 1 is counted twice |
| Sampler.Tally | src/main.py:489 | `sample[j] = sample.get(j, 0) + 1`: j's count grows by one, other counts unchanged |
| Sampler.TallyAll | src/main.py:477-489 | the sample holds exactly the drawn occurrences, each counted as often as drawn |
| Sampler.Selections | src/main.py:477-485 | one selection per draw; KeyError iff there is a draw and occurrence 1 is missing |
| Sampler.GenerateSample | src/main.py:466-491 | no draws give an empty sample; ValueError when the histogram holds no word; then KeyError without occurrence 1; the sample is drawn iff there are no draws or the histogram holds a word and occurrence 1, and it is the tally of the selections |
| Sampler.TallySize | src/main.py:489 | a tally adds one to the sum of the sample's counts |
| Sampler.TallyAllSize | src/main.py:477-489 | n tallies make a sample whose counts sum to n |
| Sampler.GenerateSampleSize | src/main.py:466-491 | a sample of n draws has counts summing to n |
| Repeats.StartsFrom | src/main.py:227-229 | the reported starts are exactly the lines in range that start a run of exactly n, in ascending order |
| Repeats.RunStarts | src/main.py:227-229 | the starts of the loop over lines 1 .. len-n-1, ascending |
| Repeats.RunStartsExact | src/main.py:227-229 | a line is reported iff it starts a run of exactly n with both neighbours present and different |
| Repeats.RunsDisjoint | src/main.py:227-229 | two reported runs are at least n lines apart |
| Repeats.WrittenFrom | src/main.py:231-235 | each start writes its n lines |
| Repeats.WrittenFromAscending | src/main.py:227-235 | starts at least n apart write each line once, in order |
| Repeats.WrittenLinesAscending | src/main.py:227-235 | no mapping line is written twice for one n |
| Repeats.EdgeRunsMissed | src/main.py:227 | a run at the first line is never reported ("a", "a", "b" for n = 2) |
| MaskText.FirstFrom | src/QC/extract_from_mask.c:89 | the first position at or after p whose character stops the scan, or the end |
| MaskText.NextLine | src/QC/extract_from_mask.c:213-237 | a line is read iff a newline remains; the line is the text up to it, and the newline is consumed |
| MaskText.NextLineConsumesOne | src/QC/extract_from_mask.c:59-63 | reading a line uses up exactly one of the counted newlines |
| MaskText.LineAvailable | src/QC/extract_from_mask.c:59-63 | a line can be read iff the newline count of the rest is positive |
| MaskText.NatToDecimal | src/QC/extract_from_mask.c:140 | `%lu` writes digits without leading zeros whose value is n |
| MaskText.StrToUl | src/QC/extract_from_mask.c:241-242 | `strtoul` gives a value within ULONG_MAX |
| MaskText.StrToUlOfDecimal | src/QC/extract_from_mask.c:241-242 | `strtoul` reads back what `%lu` writes |
| MaskText.StrToUlStopsAtNonDigit | src/QC/extract_from_mask.c:241-242 | parsing stops at the first non-digit |
| MaskText.StrToUlNegative | src/QC/extract_from_mask.c:241-242 | "-n" reads as 2^64 - n |
| MaskText.NextToken | src/QC/extract_from_mask.c:240-242 | `strtok` gives nothing iff only spaces remain; a token is non-empty, space-free and advances the position |
| MaskText.ParseLocation | src/QC/extract_from_mask.c:238-242 | any failure is MalformedLocation; the name is non-empty and space-free; start and end fit an `unsigned long`; a blank line fails |
| MaskText.ParseFields | src/QC/extract_from_mask.c:240-242 | three tokens in a row parse as name, start and end |
| MaskText.ParseFormatLocation | src/QC/extract_from_mask.c:238-242 | parsing a formatted location gives it back |
| MaskReference.ChromoName | src/QC/extract_from_mask.c:152-201 | succeeds iff a newline follows; the name runs to the first space or newline; the position ends after the header line's newline |
| MaskReference.ChromoNameOfHeader | src/QC/extract_from_mask.c:152-201 | a header line `>name description` yields name, and the position after the line |
| MaskReference.Seek | src/QC/extract_from_mask.c:87-92 | a found position is a header naming the wanted chromosome at or after the start, and no matching header starts a line (or the scan) before it; every header line that starts a line (or the scan) before it ends by it; a failure is ChromosomeNeverFound or UnexpectedEndOfFile |
| MaskReference.SeekAt | src/QC/extract_from_mask.c:88-92 | from a '>' the seek returns this header whenever it names the chromosome, and otherwise finds no matching line-start header before its result, and every line-start header line before the result ends by it |
| MaskReference.HeaderLineSkipped | src/QC/extract_from_mask.c:89-91 | skipping a non-matching header line skips no '>' that starts a line: the only line-start header inside it is itself, and it ends where the skip resumes |
| MaskReference.SkipHeaderLine | src/QC/extract_from_mask.c:89-92 | past a non-matching header line, the seek from the line's end finds no matching line-start header before its result, counted from the skipped line |
| MaskReference.SeekSkipsHeaderText | src/QC/extract_from_mask.c:88-92 | in `>a x>b`, `>b`, the '>' inside the first line's description is never read as a header: the seek for b finds the second line |
| MaskReference.SeekFindsFirstHeader | src/QC/extract_from_mask.c:88-92 | the first header ahead is found when it names the chromosome |
| MaskReference.SeekMissing | src/QC/extract_from_mask.c:88-89 | without a matching header ahead the seek fails |
| MaskReference.Navigate | src/QC/extract_from_mask.c:102-114 | the base index reaches max(base, start); a move ends on a base; EOF or a '>' first is an error |
| MaskReference.NavigateInBody | src/QC/extract_from_mask.c:102-114 | the move succeeds iff the chromosome holds `start` bases and stops on base `start`; otherwise the error says whether EOF or a '>' came first |
| MaskReference.Extract | src/QC/extract_from_mask.c:116-136 | the copy extends the buffer with bases only and leaves the base index at end+1 on a base; a '>' or EOF is an error |
| MaskReference.ExtractCopiesAtMost | src/QC/extract_from_mask.c:116-136 | the copy writes at most one base per index from `base` to `end` |
| MaskReference.ExtractInBody | src/QC/extract_from_mask.c:116-136 | the copy succeeds iff the chromosome holds base end+1, and then yields the chromosome's bases up to number end |
| MaskRun.Start | src/QC/extract_from_mask.c:66-75 | the first header's name and the base index 1; UnexpectedEndOfFile iff the reference is empty or the first line has no newline; ReferenceTooShort iff that newline is the file's last character |
| MaskRun.ChangeChromosome | src/QC/extract_from_mask.c:86-99 | the same chromosome leaves the cursor unchanged; a failed seek is the switch's error; a found header switches iff a character follows its line, landing there with base index 1, and otherwise fails with ReferenceTooShort |
| MaskRun.Copy | src/QC/extract_from_mask.c:101-136 | a copy stays on the chromosome, moves forward, and yields at most end-start+1 bases; errors only from the two loops |
| MaskRun.ProcessLocation | src/QC/extract_from_mask.c:79-136 | end < start fails with EndBeforeStart; success leaves the cursor on the location's chromosome with at most end-start+1 bases |
| MaskRun.FormatRecordTitle | src/QC/extract_from_mask.c:140 | the printed header line reads back, through `get_chromo_name`, as `name_start_end`, which starts with the location's name and '_' |
| MaskRun.FormatRecordBases | src/QC/extract_from_mask.c:140 | after its header line a printed record is the line of its bases |
| MaskRun.PrintedWhenLong | src/QC/extract_from_mask.c:116-139 | short of wrap-around, a record is printed iff the location spans at least 100 bases |
| MaskRun.Step | src/QC/extract_from_mask.c:78-142 | one turn consumes one counted line; any record it prints is long enough and holds only bases |
| MaskRun.Steps | src/QC/extract_from_mask.c:78-143 | earlier records are kept, at most one record per turn, every new record well printed, and the location file never runs out while counted lines remain |
| MaskRun.Run | src/QC/extract_from_mask.c:56-143 | at most one record per newline, all well printed; never EndOfLocations; no lines means no records |
| MaskRun.CopyBehind | src/QC/extract_from_mask.c:119 | a location ending before the current base copies nothing |
| MaskRun.CopyHere | src/QC/extract_from_mask.c:101-136 | a location starting at or before the current base copies from that base to end |
| MaskRun.CopyAhead | src/QC/extract_from_mask.c:101-136 | a location starting ahead copies bases start to end |
| MaskRun.CopyAligned | src/QC/extract_from_mask.c:101-136 | from a cursor on base b, a location yields bases max(start, b) to end iff base end+1 exists, with the error naming what ended the chromosome |
| MaskRun.ProcessAligned | src/QC/extract_from_mask.c:79-136 | the same, for a location on the current chromosome |
| MaskRun.EndingOnLastBaseFails | src/QC/extract_from_mask.c:119-131 | a location ending on its chromosome's last base always fails |
| MaskRun.CopyAfterHeader | src/QC/extract_from_mask.c:98-136 | after a header, when the body starts with a base, bases start to end of the body are copied |
| MaskRun.SwitchThenExtract | src/QC/extract_from_mask.c:86-136 | the first location after a chromosome switch copies bases start to end of that chromosome |
| MaskRun.SwitchExample | src/QC/extract_from_mask.c:86-99 | from chromosome a, the switch to b in `>a`/`AC`/`>b`/`GT` lands on b's first base G with base index 1 |
| MaskRun.LeadingNonBaseShifts | src/QC/extract_from_mask.c:69-75 | a body that starts with a blank line shifts the numbering: location c 1 2 copies "A", not "AC" |

## Left out

- Output and file handling are left out: opening, closing and reading files, usage messages, `printf`, and the `subprocess`, plotting and assembly steps. The printed records are returned as values.
- `np.convolve` and `argrelextrema` are not modelled. `Search.Detector` is a parameter that maps (window, order) to the candidate lists.
- Floating point is modelled as exact reals. Rounding is not modelled, and neither is `desired_border` coming from the settings file: the border is a parameter.
- `random.randint` is left out. Its draws are a parameter of `GenerateSample`.
- Search.Optimize: a `fuel` bound limits the number of rounds and fails with OutOfFuel. The source's `while True` has no bound.
- The search for a missing chromosome loops for ever at EOF in the source. The model returns ChromosomeNeverFound instead.
- Out-of-memory exits and the reuse of `loc.name` after `free(str)` are not modelled.
- Storing `getc` in a `char` makes a 0xFF byte read as EOF. This is not modelled.
- The stack array `sequence[str_len_required]` is not modelled, and neither is a `base_index` wrap-around when `end` is ULONG_MAX.
- A missing field makes `strtok` return NULL, which the source then dereferences. The model reports MalformedLocation.
- A mapping line with fewer than three fields makes `find_repeats` raise IndexError. The model takes each line's third field as given.
- Sampler.SelectKey: assumes ascending key order. For a sparse histogram CPython 2 can visit the keys in another order, and then picks a different occurrence; this is not modelled.
- Genome.ComputeGenomeSizesInOrder: the ascending order of the list is the same assumption. CPython 2 lists the sizes in hash-slot order, which for sizes such as 21 and 25 is not ascending.
- Genome.GenomeSize: counts the words of the unpadded histogram, where the source counts the histogram `find_extrema` has padded. Histograms.NumKmerWordsPadded proves the two counts equal.
- MaskRun.PrintedWhenLong: states the print rule only for spans below 2^64 - 2. `Printed` itself models the wrap-around.
- MaskText.StrToUl: the contract states only the range. The other behaviours are stated by StrToUlOfDecimal, StrToUlStopsAtNonDigit and StrToUlNegative.

## Behaviours of the code worth noting

- `pad_data` fills occurrences from 1 up to the largest key, not from the smallest key (lines 382-396). It raises IndexError on an empty histogram; a single key is not an error.
- The minima loop of the walk is bounded by `len(max_list)` (lines 310-313), so it raises IndexError when the candidate minima run out first (`MinLoopBoundRaises`).
- The walk skips only candidates strictly below the last accepted extremum (lines 304-315). Equal positions are accepted, so Min and Max are non-decreasing rather than strictly increasing, and the walk can end with two more minima than maxima.
- The pairs are scored in the order (w, o), (w+5, o), (w, o+1), (w-5, o), (w, o-1) (lines 348-352). `sorted` is stable, so this order breaks ties between equal scores.
- `int()` truncates both ends of a peak range (line 164), which can make the lower end equal to the upper end. The model proves lower <= upper.
- The sampler seeds its running count with `hist_dict[1]` (line 479) and then adds occurrence 1's words again in the loop (`SeededCountSkipsOccurrenceTwo`).
- The copy loop reads the character after a location's last base before it tests the index (lines 119-131), so a location ending on its chromosome's last base fails (`EndingOnLastBaseFails`).
- The genome size divides the word count by `Max[0]` (lines 404-406), which `argrelextrema` reports as a position in the value list (lines 289-292), not as an occurrence. On a histogram padded from occurrence 1 the peak at occurrence m has index m - 1, so the quotient is the word count over m - 1 (`GenomeSizeOfPeak`).
- The chromosome seek reads a header only at the '>' it scans to. A '>' in the rest of a header line is consumed with that line (lines 89-91, 193-198; `SeekSkipsHeaderText`).

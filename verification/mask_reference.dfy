/** Reading the reference FASTA file: header names, the forward seek to a
    named chromosome, and the two base-counting loops that move to a
    location's start and copy its bases. A position `pos` is the index of
    the next character `getc` would return. */
module MaskReference {
  import opened Results
  import opened MaskText

  predicate NameStop(c: char) { c == ' ' || c == '\n' }

  predicate IsHeaderMark(c: char) { c == '>' }

  /** `get_chromo_name` (lines 152-201), called just after a '>': the name
      runs to the first space or newline, the rest of the header line is
      skipped, and the position ends after the newline. EOF on the way is
      an error. */
  function ChromoName(ref: string, p: nat): (r: Result<(string, nat), MaskError>)
    requires p <= |ref|
    ensures r.Ok? <==> '\n' in ref[p..]
    ensures r.Err? ==> r.error == UnexpectedEndOfFile
    ensures r.Ok? ==> (
      var (name, q) := r.value;
      && p + |name| < q <= |ref|
      && name == ref[p..p + |name|]
      && NameStop(ref[p + |name|])
      && ' ' !in name && '\n' !in name
      && ref[q - 1] == '\n'
      && '\n' !in ref[p..q - 1])
  {
    var q := FirstFrom(ref, p, NameStop);
    if q == |ref| then
      assert '\n' !in ref[p..] by {
        forall i | p <= i < |ref| ensures ref[i] != '\n' {
          assert !NameStop(ref[i]);
        }
      }
      Err(UnexpectedEndOfFile)
    else
      var e := FirstFrom(ref, q, IsNewline);
      if e == |ref| then
        assert '\n' !in ref[p..] by {
          forall i | p <= i < |ref| ensures ref[i] != '\n' {
            if i >= q {
              assert !IsNewline(ref[i]);
            } else {
              assert !NameStop(ref[i]);
            }
          }
        }
        Err(UnexpectedEndOfFile)
      else
        assert '\n' in ref[p..] by {
          assert ref[p..][e - p] == '\n';
        }
        assert '\n' !in ref[p..e] by {
          forall i | p <= i < e ensures ref[i] != '\n' {
            if i >= q {
              assert !IsNewline(ref[i]);
            } else {
              assert !NameStop(ref[i]);
            }
          }
        }
        var name := ref[p..q];
        assert forall i :: 0 <= i < |name| ==> name[i] == ref[p + i];
        Ok((name, e + 1))
  }

  /** A header line: the name, optionally a space and a description. */
  function HeaderLine(name: string, description: string): string {
    ">" + name + (if |description| == 0 then "" else " " + description) + "\n"
  }

  /** The name is read back from the header line it was written into. */
  lemma ChromoNameOfHeader(name: string, description: string, rest: string)
    requires ' ' !in name && '\n' !in name && '\n' !in description
    ensures var ref := HeaderLine(name, description) + rest;
      ChromoName(ref, 1) == Ok((name, |HeaderLine(name, description)|))
  {
    var line := HeaderLine(name, description);
    var ref := line + rest;
    var q := 1 + |name|;
    assert forall i :: 1 <= i < q ==> ref[i] == name[i - 1];
    FirstFromIs(ref, 1, NameStop, q);
    FirstFromIs(ref, q, IsNewline, |line| - 1);
    assert ref[1..q] == name;
  }

  /** The header line that starts at `j` names chromosome `name` and ends
      just before position `q`. */
  predicate HeaderAt(ref: string, j: nat, name: string, q: nat) {
    j < |ref| && ref[j] == '>' && ChromoName(ref, j + 1) == Ok((name, q))
  }

  /** Position `i` is where a scan from `pos` starts, or begins a line.
      Every '>' at such a position that the seek passes is read as a
      header, and so is every other '>' it scans to, in a body line for
      instance; a '>' inside the rest of a header line is skipped with that
      line. */
  predicate ScanStart(ref: string, pos: nat, i: nat) {
    i == pos || (0 < i <= |ref| && ref[i - 1] == '\n')
  }

  /** Lines 87-92: scan forward to the next '>', read that header's name,
      and repeat until it is `want`. Where the source would spin at EOF
      for ever, the scan here fails with ChromosomeNeverFound. The result
      is the position of the matching '>' and the position after its
      header line. */
  function Seek(ref: string, pos: nat, want: string): (r: Result<(nat, nat), MaskError>)
    requires pos <= |ref|
    ensures r.Ok? ==> pos <= r.value.0 < r.value.1 <= |ref| && HeaderAt(ref, r.value.0, want, r.value.1)
    // the first matching header: none starts a line between `pos` and the result
    ensures r.Ok? ==> forall i, q :: pos <= i < r.value.0 && ScanStart(ref, pos, i) ==> !HeaderAt(ref, i, want, q)
    // every header line that starts a line before the result ends by the result
    ensures r.Ok? ==> forall i, n, q: nat :: pos <= i < r.value.0 && ScanStart(ref, pos, i) && HeaderAt(ref, i, n, q) ==> q <= r.value.0
    ensures r.Err? ==> r.error == ChromosomeNeverFound || r.error == UnexpectedEndOfFile
    decreases |ref| - pos, 2
  {
    var j := FirstFrom(ref, pos, IsHeaderMark);
    if j == |ref| then Err(ChromosomeNeverFound)
    else
      var r := SeekAt(ref, j, want);
      assert forall i, n, q :: pos <= i < j ==> !HeaderAt(ref, i, n, q) by {
        assert forall i :: pos <= i < j ==> !IsHeaderMark(ref[i]);
      }
      r
  }

  /** At the '>' at `j`: the header there if it is `want`'s, else the seek
      goes on after its header line. */
  function SeekAt(ref: string, j: nat, want: string): (r: Result<(nat, nat), MaskError>)
    requires j < |ref| && ref[j] == '>'
    ensures r.Ok? ==> j <= r.value.0 < r.value.1 <= |ref| && HeaderAt(ref, r.value.0, want, r.value.1)
    // a matching header at `j` is the result
    ensures forall q: nat :: HeaderAt(ref, j, want, q) ==> r == Ok((j, q))
    ensures r.Ok? ==> forall i, q :: j <= i < r.value.0 && ScanStart(ref, j, i) ==> !HeaderAt(ref, i, want, q)
    ensures r.Ok? ==> forall i, n, q: nat :: j <= i < r.value.0 && ScanStart(ref, j, i) && HeaderAt(ref, i, n, q) ==> q <= r.value.0
    ensures r.Err? ==> r.error == ChromosomeNeverFound || r.error == UnexpectedEndOfFile
    decreases |ref| - j, 1
  {
    var header := ChromoName(ref, j + 1);
    if header.Err? then Err(header.error)
    else if header.value.0 == want then Ok((j, header.value.1))
    else
      SkipHeaderLine(ref, j, want);
      Seek(ref, header.value.1, want)
  }

  /** Past a header line at `j` that does not name `want`, what the seek
      from the line's end finds is also first from `j`. */
  lemma SkipHeaderLine(ref: string, j: nat, want: string)
    requires j < |ref| && ref[j] == '>'
    requires ChromoName(ref, j + 1).Ok? && ChromoName(ref, j + 1).value.0 != want
    ensures var r := Seek(ref, ChromoName(ref, j + 1).value.1, want);
      r.Ok? ==> forall i, q :: j <= i < r.value.0 && ScanStart(ref, j, i) ==> !HeaderAt(ref, i, want, q)
    ensures var r := Seek(ref, ChromoName(ref, j + 1).value.1, want);
      r.Ok? ==> forall i, n, q: nat :: j <= i < r.value.0 && ScanStart(ref, j, i) && HeaderAt(ref, i, n, q) ==> q <= r.value.0
    decreases |ref| - j, 0
  {
    HeaderLineSkipped(ref, j, want);
  }

  /** A header line at `j` that does not name `want` hides no matching
      header the scan could read: the only '>' in it that starts a scan or
      a line is the one at `j`, whose line ends at `q`. Past the line,
      starting a line means the same from `j` as from `q`. */
  lemma HeaderLineSkipped(ref: string, j: nat, want: string)
    requires j < |ref| && ref[j] == '>'
    requires ChromoName(ref, j + 1).Ok? && ChromoName(ref, j + 1).value.0 != want
    ensures var q := ChromoName(ref, j + 1).value.1;
      forall i, q' :: j <= i < q && ScanStart(ref, j, i) ==> !HeaderAt(ref, i, want, q')
    ensures var q := ChromoName(ref, j + 1).value.1;
      forall i, n, q': nat :: j <= i < q && ScanStart(ref, j, i) && HeaderAt(ref, i, n, q') ==> q' == q
    ensures var q := ChromoName(ref, j + 1).value.1;
      forall i :: q <= i && ScanStart(ref, j, i) ==> ScanStart(ref, q, i)
  {
    var q := ChromoName(ref, j + 1).value.1;
    LineStartsOutside(ref, j, q);
  }

  /** No line starts inside the line from `j` to the newline at `q - 1`. */
  lemma LineStartsOutside(ref: string, j: nat, q: nat)
    requires j + 1 < q <= |ref| && ref[j] != '\n' && '\n' !in ref[j + 1..q - 1]
    ensures forall i :: j < i < q ==> !ScanStart(ref, j, i)
    ensures forall i :: q <= i && ScanStart(ref, j, i) ==> ScanStart(ref, q, i)
  {
    forall k | j < k < q - 1 ensures ref[k] != '\n' {
      assert ref[k] == ref[j + 1..q - 1][k - j - 1];
    }
  }

  /** The seek is first-match only among headers that start a line: a '>'
      in the rest of a header line is skipped with that line. Here the
      description of chromosome "a" holds ">b", which reads as a header of
      "b" at position 4, yet the seek for "b" finds the line at 7. */
  lemma SeekSkipsHeaderText(ref: string)
    requires ref == ">a x>b\n>b\nA"
    ensures HeaderAt(ref, 4, "b", 7)
    ensures Seek(ref, 0, "b") == Ok((7, 10))
  {
    SkippedTextNames(ref);
    FirstFromIs(ref, 0, IsHeaderMark, 0);
    FirstFromIs(ref, 7, IsHeaderMark, 7);
    assert Seek(ref, 7, "b") == Ok((7, 10));
  }

  /** The names read from the example of `SeekSkipsHeaderText`: "a" on
      the first line, "b" inside its description, and "b" on the second line. */
  lemma SkippedTextNames(ref: string)
    requires ref == ">a x>b\n>b\nA"
    ensures ChromoName(ref, 1) == Ok(("a", 7))
    ensures ChromoName(ref, 5) == Ok(("b", 7))
    ensures ChromoName(ref, 8) == Ok(("b", 10))
  {
    FirstLineName(ref);
    DescriptionName(ref);
    SecondLineName(ref);
  }

  lemma FirstLineName(ref: string)
    requires ref == ">a x>b\n>b\nA"
    ensures ChromoName(ref, 1) == Ok(("a", 7))
  {
    assert ref[1] == 'a' && ref[2] == ' ' && ref[3] == 'x' && ref[4] == '>' && ref[5] == 'b' && ref[6] == '\n';
    NameAt(ref, 1, 2, 6, "a");
  }

  lemma DescriptionName(ref: string)
    requires ref == ">a x>b\n>b\nA"
    ensures ChromoName(ref, 5) == Ok(("b", 7))
  {
    assert ref[5] == 'b' && ref[6] == '\n';
    NameAt(ref, 5, 6, 6, "b");
  }

  lemma SecondLineName(ref: string)
    requires ref == ">a x>b\n>b\nA"
    ensures ChromoName(ref, 8) == Ok(("b", 10))
  {
    assert ref[8] == 'b' && ref[9] == '\n';
    NameAt(ref, 8, 9, 9, "b");
  }

  /** The name read at `p` ends at the stop `s`, and the line at the newline `e`. */
  lemma NameAt(ref: string, p: nat, s: nat, e: nat, name: string)
    requires p <= s <= e < |ref|
    requires NameStop(ref[s]) && ref[e] == '\n'
    requires forall i :: p <= i < s ==> !NameStop(ref[i])
    requires forall i :: s <= i < e ==> ref[i] != '\n'
    requires |name| == s - p && forall i :: 0 <= i < |name| ==> name[i] == ref[p + i]
    ensures ChromoName(ref, p) == Ok((name, e + 1))
  {
    FirstFromIs(ref, p, NameStop, s);
    FirstFromIs(ref, s, IsNewline, e);
    assert ref[p..s] == name;
  }

  /** The first header after `pos` is found when it carries the wanted name. */
  lemma SeekFindsFirstHeader(ref: string, pos: nat, j: nat, want: string, q: nat)
    requires pos <= j < |ref|
    requires forall i :: pos <= i < j ==> ref[i] != '>'
    requires HeaderAt(ref, j, want, q)
    ensures Seek(ref, pos, want) == Ok((j, q))
  {
    assert forall i :: pos <= i < j ==> !IsHeaderMark(ref[i]);
    FirstFromIs(ref, pos, IsHeaderMark, j);
    SeekAtHeader(ref, pos, j, want, q);
  }

  lemma SeekAtHeader(ref: string, pos: nat, j: nat, want: string, q: nat)
    requires pos <= j <= |ref| && FirstFrom(ref, pos, IsHeaderMark) == j
    requires HeaderAt(ref, j, want, q)
    ensures Seek(ref, pos, want) == Ok((j, q))
  {
  }

  /** Without a matching header ahead, the seek fails. */
  lemma SeekMissing(ref: string, pos: nat, want: string)
    requires pos <= |ref|
    requires forall j, q :: pos <= j ==> !HeaderAt(ref, j, want, q)
    ensures Seek(ref, pos, want).Err?
  {
  }

  /** Lines 102-114: read characters until `base` reaches `start`, counting
      the base characters; EOF or a '>' first is an error. Returns the new
      position and base index. */
  function Navigate(ref: string, pos: nat, base: nat, start: nat): (r: Result<(nat, nat), MaskError>)
    requires pos <= |ref|
    ensures r.Ok? ==> pos <= r.value.0 <= |ref| && r.value.1 == (if base < start then start else base)
    ensures r.Ok? && base >= start ==> r.value.0 == pos
    ensures r.Ok? && base < start ==> pos < r.value.0 && IsBase(ref[r.value.0 - 1])
    ensures r.Err? ==> r.error == TooShortSeeking || r.error == EndOfChromosome
    decreases |ref| - pos
  {
    if base >= start then Ok((pos, base))
    else if pos == |ref| then Err(TooShortSeeking)
    else
      var d := ref[pos];
      if IsBase(d) then Navigate(ref, pos + 1, base + 1, start)
      else if d == '>' then Err(EndOfChromosome)
      else Navigate(ref, pos + 1, base, start)
  }

  /** Lines 116-136, with `d == ref[pos - 1]` the character last read: while
      `base <= end`, copy `d` if it is a base (a '>' is an error), read the
      next character (EOF is an error) and count it if it is a base. */
  function Extract(ref: string, pos: nat, base: nat, end: nat, acc: string): (r: Result<(string, nat, nat), MaskError>)
    requires 1 <= pos <= |ref|
    ensures r.Ok? ==> (
      && pos <= r.value.1 <= |ref|
      && r.value.2 == (if base <= end then end + 1 else base)
      && |acc| <= |r.value.0| && r.value.0[..|acc|] == acc
      && (forall i :: |acc| <= i < |r.value.0| ==> IsBase(r.value.0[i]))
      && (base <= end ==> IsBase(ref[r.value.1 - 1])))
    ensures r.Ok? && base > end ==> r.value == (acc, pos, base)
    ensures r.Err? ==> r.error == TooShortExtracting || r.error == EndOfChromosome
    decreases |ref| - pos
  {
    if base > end then Ok((acc, pos, base))
    else
      var d := ref[pos - 1];
      if d == '>' then Err(EndOfChromosome)
      else
        var acc' := if IsBase(d) then acc + [d] else acc;
        if pos == |ref| then Err(TooShortExtracting)
        else
          var next := ref[pos];
          var r := Extract(ref, pos + 1, if IsBase(next) then base + 1 else base, end, acc');
          assert r.Ok? ==> r.value.0[..|acc|] == r.value.0[..|acc'|][..|acc|];
          r
  }

  /** The copy loop copies at most one base per index from `base` to `end`,
      and one fewer when the character last read is not a base (the next
      base read takes the index before it is copied). */
  lemma {:induction false} ExtractCopiesAtMost(ref: string, pos: nat, base: nat, end: nat, acc: string)
    requires 1 <= pos <= |ref| && base <= end
    ensures var r := Extract(ref, pos, base, end, acc);
      r.Ok? ==> |r.value.0| + (if IsBase(ref[pos - 1]) then 0 else 1) <= |acc| + end + 1 - base
    decreases |ref| - pos
  {
    var d := ref[pos - 1];
    if d != '>' && pos < |ref| {
      var acc' := if IsBase(d) then acc + [d] else acc;
      var base' := if IsBase(ref[pos]) then base + 1 else base;
      if base' <= end {
        ExtractCopiesAtMost(ref, pos + 1, base', end, acc');
      }
    }
  }

  // The chromosome a cursor is in -----------------------------------------

  /** `e` is where the chromosome body starting at `p0` ends: the first '>'
      at or after `p0`, or the end of the file. */
  predicate Body(ref: string, p0: nat, e: nat) {
    && p0 <= e <= |ref|
    && (e < |ref| ==> ref[e] == '>')
    && (forall i :: p0 <= i < e ==> ref[i] != '>')
  }

  /** One past the last character of the chromosome body starting at `p0`. */
  function BodyEnd(ref: string, p0: nat): (e: nat)
    requires p0 <= |ref|
    ensures Body(ref, p0, e)
  {
    FirstFrom(ref, p0, IsHeaderMark)
  }

  /** A body has one end. */
  lemma BodyEndUnique(ref: string, p0: nat, e: nat)
    requires Body(ref, p0, e)
    ensures e == BodyEnd(ref, p0)
  {
    FirstFromIs(ref, p0, IsHeaderMark, e);
  }

  /** The base characters among `ref[i..j]`, in order. */
  function BasesIn(ref: string, i: nat, j: nat): string
    requires i <= j <= |ref|
    decreases j - i
  {
    if j == i then [] else BasesIn(ref, i, j - 1) + (if IsBase(ref[j - 1]) then [ref[j - 1]] else [])
  }

  lemma {:induction false} BasesInIsBases(ref: string, i: nat, j: nat)
    requires i <= j <= |ref|
    ensures BasesIn(ref, i, j) == Bases(ref[i..j])
    decreases j - i
  {
    if j > i {
      BasesInIsBases(ref, i, j - 1);
      assert ref[i..j] == ref[i..j - 1] + [ref[j - 1]];
      BasesSnoc(ref[i..j - 1], ref[j - 1]);
    }
  }

  lemma {:induction false} BasesInSplit(ref: string, i: nat, k: nat, j: nat)
    requires i <= k <= j <= |ref|
    ensures BasesIn(ref, i, j) == BasesIn(ref, i, k) + BasesIn(ref, k, j)
    decreases j - k
  {
    if j > k {
      BasesInSplit(ref, i, k, j - 1);
    }
  }

  /** The bases of the chromosome body starting at `p0`; the extractor
      numbers them from 1. */
  function BodyBases(ref: string, p0: nat): string
    requires p0 <= |ref|
  {
    BasesIn(ref, p0, BodyEnd(ref, p0))
  }

  /** The bases read between two positions of one body are a slice of the body's bases. */
  lemma BasesBetween(ref: string, p0: nat, e: nat, i: nat, j: nat)
    requires p0 <= i <= j <= e <= |ref|
    ensures |BasesIn(ref, p0, i)| <= |BasesIn(ref, p0, j)| <= |BasesIn(ref, p0, e)|
    ensures BasesIn(ref, i, j) == BasesIn(ref, p0, e)[|BasesIn(ref, p0, i)|..|BasesIn(ref, p0, j)|]
  {
    BasesInSplit(ref, p0, i, j);
    BasesInSplit(ref, p0, j, e);
  }

  /** Moving to `start` succeeds exactly when the body holds `start` bases;
      it stops on base number `start`. Otherwise the body ends first, at a
      '>' or at EOF. */
  lemma {:induction false} NavigateInBody(ref: string, p0: nat, e: nat, pos: nat, base: nat, start: nat)
    requires Body(ref, p0, e) && p0 <= pos <= e
    requires base == |BasesIn(ref, p0, pos)| && base < start
    ensures var r := Navigate(ref, pos, base, start);
      && (r.Ok? <==> |BasesIn(ref, p0, e)| >= start)
      && (r.Ok? ==> p0 <= r.value.0 <= e && |BasesIn(ref, p0, r.value.0)| == start)
      && (r.Err? ==> r.error == (if e == |ref| then TooShortSeeking else EndOfChromosome))
    decreases |ref| - pos
  {
    BasesBetween(ref, p0, e, pos, e);
    if pos < e {
      var base' := if IsBase(ref[pos]) then base + 1 else base;
      assert |BasesIn(ref, p0, pos + 1)| == base';
      if base' < start {
        NavigateInBody(ref, p0, e, pos + 1, base', start);
      } else {
        BasesBetween(ref, p0, e, pos + 1, e);
      }
    }
  }

  /** What copying up to `end` yields in the body `p0..e`: success exactly
      when the body holds `end + 1` bases (one more than the last one
      copied, since the loop reads past it), and then the body's bases from
      the one read at `s` to number `end`; otherwise the body ends first,
      at a '>' or at EOF. */
  predicate ExtractOutcome(ref: string, p0: nat, e: nat, s: nat, end: nat, r: Result<(string, nat, nat), MaskError>)
    requires p0 <= s <= e <= |ref|
  {
    var bs := BasesIn(ref, p0, e);
    && |BasesIn(ref, p0, s)| <= end
    && (r.Ok? <==> |bs| >= end + 1)
    && (r.Ok? ==> (r.value.0 == bs[|BasesIn(ref, p0, s)|..end]
        && r.value.2 == end + 1 && p0 <= r.value.1 <= e && |BasesIn(ref, p0, r.value.1)| == end + 1))
    && (r.Err? ==> r.error == (if e == |ref| then TooShortExtracting else EndOfChromosome))
  }

  /** The state at the top of the copy loop: `pos - 1` is the character
      last read, `base` counts the bases read in the body, and `acc` holds
      the bases read from `s` up to it. */
  predicate ExtractState(ref: string, p0: nat, e: nat, s: nat, pos: nat, base: nat, end: nat, acc: string) {
    && Body(ref, p0, e) && p0 <= s < pos <= |ref| && pos - 1 <= e
    && base == |BasesIn(ref, p0, pos)|
    && acc == BasesIn(ref, s, pos - 1)
    && base <= end + 1 && (base == end + 1 ==> IsBase(ref[pos - 1]))
  }

  lemma ExtractFinished(ref: string, p0: nat, e: nat, s: nat, pos: nat, base: nat, end: nat, acc: string)
    requires ExtractState(ref, p0, e, s, pos, base, end, acc) && base > end
    ensures s <= e && ExtractOutcome(ref, p0, e, s, end, Extract(ref, pos, base, end, acc))
  {
    assert pos - 1 < e;
    BasesBetween(ref, p0, e, s, pos - 1);
    BasesBetween(ref, p0, e, pos, e);
  }

  lemma ExtractAtHeader(ref: string, p0: nat, e: nat, s: nat, pos: nat, base: nat, end: nat, acc: string)
    requires ExtractState(ref, p0, e, s, pos, base, end, acc) && base <= end && pos - 1 == e
    ensures s <= e && ExtractOutcome(ref, p0, e, s, end, Extract(ref, pos, base, end, acc))
  {
    BasesBetween(ref, p0, e, s, pos - 1);
    assert ref[pos - 1] == '>';
  }

  lemma ExtractAtEof(ref: string, p0: nat, e: nat, s: nat, pos: nat, base: nat, end: nat, acc: string)
    requires ExtractState(ref, p0, e, s, pos, base, end, acc) && base <= end && pos - 1 < e && pos == |ref|
    ensures s <= e && ExtractOutcome(ref, p0, e, s, end, Extract(ref, pos, base, end, acc))
  {
    BasesBetween(ref, p0, e, s, pos);
  }

  /** One turn of the copy loop inside the body keeps the loop state. */
  lemma ExtractStep(ref: string, p0: nat, e: nat, s: nat, pos: nat, base: nat, end: nat, acc: string, base': nat, acc': string)
    requires ExtractState(ref, p0, e, s, pos, base, end, acc) && base <= end && pos - 1 < e && pos < |ref|
    requires acc' == if IsBase(ref[pos - 1]) then acc + [ref[pos - 1]] else acc
    requires base' == if IsBase(ref[pos]) then base + 1 else base
    ensures ExtractState(ref, p0, e, s, pos + 1, base', end, acc')
    ensures Extract(ref, pos, base, end, acc) == Extract(ref, pos + 1, base', end, acc')
  {
  }

  /** The copy loop, from any state inside the body, yields `ExtractOutcome`. */
  lemma {:induction false} ExtractInBody(ref: string, p0: nat, e: nat, s: nat, pos: nat, base: nat, end: nat, acc: string)
    requires ExtractState(ref, p0, e, s, pos, base, end, acc)
    ensures s <= e && ExtractOutcome(ref, p0, e, s, end, Extract(ref, pos, base, end, acc))
    decreases |ref| - pos, 1
  {
    if base > end {
      ExtractFinished(ref, p0, e, s, pos, base, end, acc);
    } else if pos - 1 == e {
      ExtractAtHeader(ref, p0, e, s, pos, base, end, acc);
    } else if pos == |ref| {
      ExtractAtEof(ref, p0, e, s, pos, base, end, acc);
    } else {
      ExtractOnward(ref, p0, e, s, pos, base, end, acc);
    }
  }

  /** The copy loop's turn inside the body, followed by the rest of the loop. */
  lemma {:induction false} ExtractOnward(ref: string, p0: nat, e: nat, s: nat, pos: nat, base: nat, end: nat, acc: string)
    requires ExtractState(ref, p0, e, s, pos, base, end, acc) && base <= end && pos - 1 < e && pos < |ref|
    ensures s <= e && ExtractOutcome(ref, p0, e, s, end, Extract(ref, pos, base, end, acc))
    decreases |ref| - pos, 0
  {
    var d := ref[pos - 1];
    var acc' := if IsBase(d) then acc + [d] else acc;
    var base' := if IsBase(ref[pos]) then base + 1 else base;
    ExtractStep(ref, p0, e, s, pos, base, end, acc, base', acc');
    ExtractInBody(ref, p0, e, s, pos + 1, base', end, acc');
  }
}

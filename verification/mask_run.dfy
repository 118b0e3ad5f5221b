/** `main` of the masked-region extractor: for each line of the location
    file, move to the named chromosome, to the location's start, copy its
    bases, and print a record for locations of at least 100 bases. */
module MaskRun {
  import opened Results
  import opened MaskText
  import opened MaskReference

  /** The reading state kept across locations: `pos` is the next position
      of the reference, so `ref[pos - 1]` is the character `d` last read;
      `chromo` is the current chromosome's name and `base` the index
      (`base_index`) the extractor gives `d`. */
  datatype Cursor = Cursor(pos: nat, chromo: string, base: nat)

  predicate ValidCursor(ref: string, cur: Cursor) {
    1 <= cur.pos <= |ref|
  }

  /** A printed record: `>name_start_end` and the copied bases. */
  datatype Record = Record(loc: Location, bases: string)

  /** The outcome of a run: the records printed, and the error that ended
      it early, if any (records printed before an error stay printed). */
  datatype Outcome = Outcome(printed: seq<Record>, failure: Option<MaskError>)

  /** Lines 67-75: skip the first character (the '>'), read the first
      header's name, then read the first character of its body; EOF there
      is an error. The base index starts at 1. */
  function Start(ref: string): (r: Result<Cursor, MaskError>)
    ensures r.Ok? ==> ValidCursor(ref, r.value) && r.value.base == 1
    ensures r.Ok? ==> ChromoName(ref, 1) == Ok((r.value.chromo, r.value.pos - 1))
    ensures r.Err? ==> r.error == UnexpectedEndOfFile || r.error == ReferenceTooShort
    ensures |ref| == 0 ==> r == Err(UnexpectedEndOfFile)
    // EOF inside the first header line
    ensures |ref| > 0 ==> (r == Err(UnexpectedEndOfFile) <==> '\n' !in ref[1..])
    // the first header line ends the file: nothing follows it
    ensures |ref| >= 2 ==> (r == Err(ReferenceTooShort) <==> ref[|ref| - 1] == '\n' && '\n' !in ref[1..|ref| - 1])
  {
    var p0 := if |ref| == 0 then 0 else 1;
    var header := ChromoName(ref, p0);
    if header.Err? then Err(header.error)
    else
      var (name, q) := header.value;
      assert |ref| >= 2 ==> (q == |ref| <==> ref[|ref| - 1] == '\n' && '\n' !in ref[1..|ref| - 1]) by {
        if |ref| >= 2 && q < |ref| && ref[|ref| - 1] == '\n' {
          assert ref[1..|ref| - 1][q - 2] == '\n';
        }
        if |ref| >= 2 && q == |ref| {
          assert ref[1..|ref| - 1] == ref[1..q - 1];
        }
      }
      if q == |ref| then Err(ReferenceTooShort) else Ok(Cursor(q + 1, name, 1))
  }

  /** Lines 86-99: on a different chromosome, seek forward to its header and
      read the first character of its body, restarting the base index at 1. */
  function ChangeChromosome(ref: string, cur: Cursor, name: string): (r: Result<Cursor, MaskError>)
    requires ValidCursor(ref, cur)
    ensures cur.chromo == name ==> r == Ok(cur)
    ensures r.Ok? ==> ValidCursor(ref, r.value) && r.value.chromo == name && r.value.pos >= cur.pos
    ensures r.Ok? && cur.chromo != name ==>
      r.value.base == 1 && Seek(ref, cur.pos, name).Ok? && Seek(ref, cur.pos, name).value.1 == r.value.pos - 1
    // the seek's failure is the switch's failure
    ensures cur.chromo != name && Seek(ref, cur.pos, name).Err? ==> r == Err(Seek(ref, cur.pos, name).error)
    // a found header switches iff a character follows its line, else ReferenceTooShort
    ensures cur.chromo != name && Seek(ref, cur.pos, name).Ok? ==>
      (r.Ok? <==> Seek(ref, cur.pos, name).value.1 < |ref|) && (r.Err? ==> r.error == ReferenceTooShort)
    ensures r.Err? ==> r.error in {ChromosomeNeverFound, UnexpectedEndOfFile, ReferenceTooShort}
  {
    if cur.chromo == name then Ok(cur)
    else
      var found := Seek(ref, cur.pos, name);
      if found.Err? then Err(found.error)
      else
        var q := found.value.1;
        if q == |ref| then Err(ReferenceTooShort) else Ok(Cursor(q + 1, name, 1))
  }

  /** Lines 101-136 within the current chromosome: move to the start, then
      copy up to the end. */
  function Copy(ref: string, cur: Cursor, loc: Location): (r: Result<(Cursor, string), MaskError>)
    requires ValidCursor(ref, cur) && loc.start <= loc.end
    ensures r.Ok? ==> (
      var (next, bases) := r.value;
      && ValidCursor(ref, next)
      && next.chromo == cur.chromo
      && next.pos >= cur.pos
      && |bases| <= loc.end - loc.start + 1
      && forall i :: 0 <= i < |bases| ==> IsBase(bases[i]))
    ensures r.Err? ==> r.error in {TooShortSeeking, TooShortExtracting, EndOfChromosome}
  {
    var moved :- Navigate(ref, cur.pos, cur.base, loc.start);
    var copied :- Extract(ref, moved.0, moved.1, loc.end, []);
    assert |copied.0| <= loc.end - loc.start + 1 by {
      if moved.1 <= loc.end {
        ExtractCopiesAtMost(ref, moved.0, moved.1, loc.end, []);
      }
    }
    Ok((Cursor(copied.1, cur.chromo, copied.2), copied.0))
  }

  /** Lines 81-136 for one location: reject end < start, change chromosome
      if needed, then move and copy. */
  function ProcessLocation(ref: string, cur: Cursor, loc: Location): (r: Result<(Cursor, string), MaskError>)
    requires ValidCursor(ref, cur)
    ensures loc.end < loc.start ==> r == Err(EndBeforeStart)
    ensures r.Ok? ==> (
      var (next, bases) := r.value;
      && ValidCursor(ref, next)
      && next.chromo == loc.name
      && next.pos >= cur.pos
      && |bases| <= loc.end - loc.start + 1
      && forall i :: 0 <= i < |bases| ==> IsBase(bases[i]))
    ensures r.Err? ==> r.error != EndOfLocations && r.error != MalformedLocation
  {
    if loc.end < loc.start then Err(EndBeforeStart)
    else
      var c :- ChangeChromosome(ref, cur, loc.name);
      Copy(ref, c, loc)
  }

  /** Lines 116 and 139: `str_len_required - 1 >= 100` in 64-bit `size_t`
      arithmetic. */
  predicate Printed(loc: Location)
    requires loc.start <= loc.end
  {
    var required := (loc.end - loc.start + 2) % ULongModulus;
    (required - 1) % ULongModulus >= 100
  }

  /** Short of the two largest spans, which wrap around, a record is printed
      exactly when the location covers at least 100 bases. */
  lemma PrintedWhenLong(loc: Location)
    requires loc.start <= loc.end && loc.end - loc.start + 2 < ULongModulus
    ensures Printed(loc) <==> loc.end - loc.start + 1 >= 100
  {
  }

  /** The record's header name `name_start_end`. */
  function RecordTitle(loc: Location): string {
    loc.name + "_" + NatToDecimal(loc.start) + "_" + NatToDecimal(loc.end)
  }

  /** Line 140: `printf(">%s_%lu_%lu\n%s\n", …)`. */
  function FormatRecord(rec: Record): string {
    HeaderLine(RecordTitle(rec.loc), "") + rec.bases + "\n"
  }

  /** A printed record is a FASTA record the extractor can read again:
      `get_chromo_name` reads `name_start_end`, which starts with the
      location's name, from its header line. */
  lemma FormatRecordTitle(rec: Record)
    requires ' ' !in rec.loc.name && '\n' !in rec.loc.name
    ensures RecordTitle(rec.loc)[..|rec.loc.name| + 1] == rec.loc.name + "_"
    ensures ChromoName(FormatRecord(rec), 1) == Ok((RecordTitle(rec.loc), |RecordTitle(rec.loc)| + 2))
  {
    TitleFields(rec.loc);
    TitleRead(RecordTitle(rec.loc), rec.bases, FormatRecord(rec));
  }

  /** The rest of a printed record, after its header line, is the line of its bases. */
  lemma FormatRecordBases(rec: Record)
    ensures FormatRecord(rec)[|RecordTitle(rec.loc)| + 2..] == rec.bases + "\n"
  {
    var line := HeaderLine(RecordTitle(rec.loc), "");
    assert |line| == |RecordTitle(rec.loc)| + 2;
    assert FormatRecord(rec) == line + (rec.bases + "\n");
  }

  /** `get_chromo_name` reads the title back from its header line. */
  lemma TitleRead(title: string, text: string, out: string)
    requires ' ' !in title && '\n' !in title
    requires out == HeaderLine(title, "") + text + "\n"
    ensures |HeaderLine(title, "")| == |title| + 2
    ensures ChromoName(out, 1) == Ok((title, |title| + 2))
  {
    var line := HeaderLine(title, "");
    assert out == line + (text + "\n");
    ChromoNameOfHeader(title, "", text + "\n");
  }

  /** The title holds no space or newline, and starts with the name and '_'. */
  lemma TitleFields(loc: Location)
    requires ' ' !in loc.name && '\n' !in loc.name
    ensures var title := RecordTitle(loc);
      ' ' !in title && '\n' !in title && title[..|loc.name| + 1] == loc.name + "_"
  {
    var a, b := NatToDecimal(loc.start), NatToDecimal(loc.end);
    assert ' ' !in a && '\n' !in a by {
      assert forall k :: 0 <= k < |a| ==> IsDigit(a[k]);
    }
    assert ' ' !in b && '\n' !in b by {
      assert forall k :: 0 <= k < |b| ==> IsDigit(b[k]);
    }
    var title := RecordTitle(loc);
    assert title == (loc.name + "_") + (a + "_" + b);
  }

  /** What every printed record satisfies: a location long enough to
      print, and at most one base per index it covers. */
  predicate WellPrinted(rec: Record) {
    && rec.loc.start <= rec.loc.end
    && Printed(rec.loc)
    && |rec.bases| <= rec.loc.end - rec.loc.start + 1
    && forall i :: 0 <= i < |rec.bases| ==> IsBase(rec.bases[i])
  }

  /** One turn of the loop (lines 79-142): read a line, parse it, process
      the location, and keep the record when it is long enough. */
  function Step(ref: string, locs: string, lp: nat, cur: Cursor): (r: Result<(nat, Cursor, Option<Record>), MaskError>)
    requires lp <= |locs| && ValidCursor(ref, cur)
    ensures r.Ok? ==> (
      var (lp', cur', rec) := r.value;
      && lp < lp' <= |locs|
      && CountNewlines(locs[lp'..]) + 1 == CountNewlines(locs[lp..])
      && ValidCursor(ref, cur')
      && (rec.Some? ==> WellPrinted(rec.value)))
    ensures r.Err? && r.error == EndOfLocations ==> CountNewlines(locs[lp..]) == 0
  {
    LineAvailable(locs, lp);
    var line :- NextLine(locs, lp);
    NextLineConsumesOne(locs, lp);
    var loc :- ParseLocation(line.0);
    var done :- ProcessLocation(ref, cur, loc);
    Ok((line.1, done.0, if Printed(loc) then Some(Record(loc, done.1)) else None))
  }

  /** The `while (iCount < num_locations)` loop with `k` iterations left and
      the location file read up to `lp`. */
  function Steps(ref: string, locs: string, lp: nat, k: nat, cur: Cursor, printed: seq<Record>): (r: Outcome)
    requires lp <= |locs| && ValidCursor(ref, cur)
    ensures |printed| <= |r.printed| <= |printed| + k && r.printed[..|printed|] == printed
    ensures forall i :: |printed| <= i < |r.printed| ==> WellPrinted(r.printed[i])
    ensures k <= CountNewlines(locs[lp..]) ==> r.failure != Some(EndOfLocations)
    decreases k
  {
    if k == 0 then Outcome(printed, None)
    else
      var step := Step(ref, locs, lp, cur);
      if step.Err? then
        assert step.error == EndOfLocations ==> CountNewlines(locs[lp..]) == 0;
        Outcome(printed, Some(step.error))
      else
        var (lp', cur', rec) := step.value;
        assert CountNewlines(locs[lp'..]) + 1 == CountNewlines(locs[lp..]);
        var printed' := printed + (if rec.Some? then [rec.value] else []);
        var r := Steps(ref, locs, lp', k - 1, cur', printed');
        KeepsPrinted(printed, rec, r.printed);
        r
  }

  /** Output that extends `printed` and a well-printed record extends
      `printed` alone. */
  lemma KeepsPrinted(printed: seq<Record>, rec: Option<Record>, out: seq<Record>)
    requires rec.Some? ==> WellPrinted(rec.value)
    requires var printed' := printed + (if rec.Some? then [rec.value] else []);
      && |printed'| <= |out| && out[..|printed'|] == printed'
      && forall i :: |printed'| <= i < |out| ==> WellPrinted(out[i])
    ensures |printed| <= |out| && out[..|printed|] == printed
    ensures forall i :: |printed| <= i < |out| ==> WellPrinted(out[i])
  {
    var printed' := printed + (if rec.Some? then [rec.value] else []);
    assert out[..|printed|] == out[..|printed'|][..|printed|];
    forall i | |printed| <= i < |printed'| ensures WellPrinted(out[i]) {
      assert out[i] == out[..|printed'|][i] == rec.value;
    }
  }

  /** The whole run: one location per newline of the location file. */
  function Run(ref: string, locs: string): (r: Outcome)
    ensures |r.printed| <= CountNewlines(locs)
    ensures forall i :: 0 <= i < |r.printed| ==> WellPrinted(r.printed[i])
    ensures r.failure != Some(EndOfLocations)
    ensures CountNewlines(locs) == 0 && Start(ref).Ok? ==> r == Outcome([], None)
  {
    var start := Start(ref);
    if start.Err? then Outcome([], Some(start.error))
    else
      assert locs[0..] == locs;
      Steps(ref, locs, 0, CountNewlines(locs), start.value, [])
  }

  // Extraction in the model of the chromosome ------------------------------

  /** The cursor is on base number `base` of the body starting at `p0`:
      `d` is a base, and `base` counts the bases read so far. */
  predicate Aligned(ref: string, p0: nat, cur: Cursor) {
    && p0 < cur.pos <= |ref|
    && cur.pos <= BodyEnd(ref, p0)
    && IsBase(ref[cur.pos - 1])
    && 1 <= cur.base == |BasesIn(ref, p0, cur.pos)|
  }

  /** What a location yields from a cursor on base number `base` of the
      body starting at `p0`: the body's bases numbered max(start, base) to
      end (from `start` on for sorted locations), provided base number
      end + 1 exists, leaving the cursor on base end + 1; otherwise the body
      runs out first, at a '>' or at EOF. A location that ends before
      `base` copies nothing and leaves the cursor in place. */
  predicate AlignedOutcome(ref: string, p0: nat, cur: Cursor, loc: Location, r: Result<(Cursor, string), MaskError>)
    requires Aligned(ref, p0, cur) && loc.start <= loc.end
  {
    var bs := BodyBases(ref, p0);
    && (loc.end < cur.base ==> r == Ok((cur, [])))
    && (cur.base <= loc.end ==> (
      && (r.Ok? <==> |bs| > loc.end)
      && (r.Ok? ==> (r.value.1 == bs[Max(loc.start, cur.base) - 1..loc.end]
          && Aligned(ref, p0, r.value.0) && r.value.0.base == loc.end + 1))
      && (r.Err? ==> r.error == (if BodyEnd(ref, p0) < |ref| then EndOfChromosome
          else if |bs| < loc.start then TooShortSeeking else TooShortExtracting))))
  }

  /** Copying from a base of the body: the copy loop's state holds there. */
  lemma ExtractFromBase(ref: string, p0: nat, pos: nat, base: nat, end: nat)
    requires Aligned(ref, p0, Cursor(pos, [], base)) && base <= end
    ensures var e := BodyEnd(ref, p0);
      && pos - 1 <= e
      && ExtractOutcome(ref, p0, e, pos - 1, end, Extract(ref, pos, base, end, []))
      && |BasesIn(ref, p0, pos - 1)| == base - 1
  {
    var e := BodyEnd(ref, p0);
    assert ExtractState(ref, p0, e, pos - 1, pos, base, end, []);
    ExtractInBody(ref, p0, e, pos - 1, pos, base, end, []);
  }

  /** A location that ends before the cursor's base copies nothing and
      leaves the cursor in place. */
  lemma CopyBehind(ref: string, p0: nat, cur: Cursor, loc: Location)
    requires Aligned(ref, p0, cur) && loc.start <= loc.end < cur.base
    ensures Copy(ref, cur, loc) == Ok((cur, []))
  {
  }

  /** A location whose start is at or behind the cursor's base copies from that base on. */
  lemma CopyHere(ref: string, p0: nat, cur: Cursor, loc: Location)
    requires Aligned(ref, p0, cur) && loc.start <= cur.base <= loc.end
    ensures AlignedOutcome(ref, p0, cur, loc, Copy(ref, cur, loc))
  {
    var e := BodyEnd(ref, p0);
    BasesBetween(ref, p0, e, cur.pos, e);
    assert Navigate(ref, cur.pos, cur.base, loc.start) == Ok((cur.pos, cur.base));
    CopyFrom(ref, p0, cur, loc, cur.pos, cur.base);
  }

  /** A location that starts after the cursor's base first moves on to its start. */
  lemma CopyAhead(ref: string, p0: nat, cur: Cursor, loc: Location)
    requires Aligned(ref, p0, cur) && cur.base < loc.start <= loc.end
    ensures AlignedOutcome(ref, p0, cur, loc, Copy(ref, cur, loc))
  {
    var e := BodyEnd(ref, p0);
    var moved := Navigate(ref, cur.pos, cur.base, loc.start);
    NavigateInBody(ref, p0, e, cur.pos, cur.base, loc.start);
    if moved.Ok? {
      CopyFrom(ref, p0, cur, loc, moved.value.0, moved.value.1);
    } else {
      assert Copy(ref, cur, loc) == Err(moved.error);
    }
  }

  /** Once the move has stopped on base number `base` = max(start, cur.base)
      at `pos`, the copy from there yields `AlignedOutcome`. */
  lemma CopyFrom(ref: string, p0: nat, cur: Cursor, loc: Location, pos: nat, base: nat)
    requires Aligned(ref, p0, cur) && loc.start <= loc.end && cur.base <= loc.end
    requires Navigate(ref, cur.pos, cur.base, loc.start) == Ok((pos, base))
    requires Aligned(ref, p0, Cursor(pos, [], base)) && base == Max(loc.start, cur.base)
    ensures AlignedOutcome(ref, p0, cur, loc, Copy(ref, cur, loc))
  {
    var e := BodyEnd(ref, p0);
    var bs := BodyBases(ref, p0);
    ExtractFromBase(ref, p0, pos, base, loc.end);
    BasesBetween(ref, p0, e, pos, e);
    var copied := Extract(ref, pos, base, loc.end, []);
    var r := Copy(ref, cur, loc);
    assert r == if copied.Ok? then
      Ok((Cursor(copied.value.1, cur.chromo, copied.value.2), copied.value.0)) else Err(copied.error);
    if copied.Ok? {
      assert r.value.1 == bs[base - 1..loc.end];
      assert Aligned(ref, p0, r.value.0);
    } else {
      assert |bs| >= loc.start;
    }
  }

  /** Copying from a cursor on a base of the body yields `AlignedOutcome`. */
  lemma CopyAligned(ref: string, p0: nat, cur: Cursor, loc: Location)
    requires Aligned(ref, p0, cur) && loc.start <= loc.end
    ensures AlignedOutcome(ref, p0, cur, loc, Copy(ref, cur, loc))
  {
    if loc.end < cur.base {
      CopyBehind(ref, p0, cur, loc);
    } else if loc.start <= cur.base {
      CopyHere(ref, p0, cur, loc);
    } else {
      CopyAhead(ref, p0, cur, loc);
    }
  }

  /** A location on the current chromosome, read from a cursor on a base of
      its body, yields `AlignedOutcome`. */
  lemma ProcessAligned(ref: string, p0: nat, cur: Cursor, loc: Location)
    requires Aligned(ref, p0, cur) && cur.chromo == loc.name && loc.start <= loc.end
    ensures AlignedOutcome(ref, p0, cur, loc, ProcessLocation(ref, cur, loc))
  {
    CopyAligned(ref, p0, cur, loc);
  }

  /** A location that ends on its chromosome's last base always fails: the
      copy loop reads on past it looking for one more base. */
  lemma EndingOnLastBaseFails(ref: string, p0: nat, cur: Cursor, loc: Location)
    requires Aligned(ref, p0, cur) && cur.chromo == loc.name && loc.start <= loc.end
    requires cur.base <= loc.end && |BodyBases(ref, p0)| == loc.end
    ensures ProcessLocation(ref, cur, loc).Err?
  {
    ProcessAligned(ref, p0, cur, loc);
  }

  /** After a header line ending at `q`, the cursor is on base number 1 of
      the body when that body starts with a base. */
  lemma EnteredAligned(ref: string, q: nat, name: string)
    requires q < |ref| && IsBase(ref[q])
    ensures Aligned(ref, q, Cursor(q + 1, name, 1))
  {
    assert BasesIn(ref, q, q + 1) == [ref[q]];
  }

  /** Once the chromosome is changed, a location is copied from the new cursor. */
  lemma ProcessAfterChange(ref: string, cur: Cursor, loc: Location, c: Cursor)
    requires ValidCursor(ref, cur) && loc.start <= loc.end
    requires ChangeChromosome(ref, cur, loc.name) == Ok(c)
    ensures ValidCursor(ref, c) && ProcessLocation(ref, cur, loc) == Copy(ref, c, loc)
  {
  }

  /** From the first character after a header line, when it is a base, a
      location yields the body's bases numbered from `start`. */
  lemma CopyAfterHeader(ref: string, c: Cursor, loc: Location)
    requires 1 <= c.pos <= |ref| && IsBase(ref[c.pos - 1]) && c.base == 1 && 1 <= loc.start <= loc.end
    ensures var bs := BodyBases(ref, c.pos - 1);
      var r := Copy(ref, c, loc);
      && (r.Ok? <==> |bs| > loc.end)
      && (r.Ok? ==> r.value.1 == bs[loc.start - 1..loc.end])
  {
    EnteredAligned(ref, c.pos - 1, c.chromo);
    assert c == Cursor(c.pos - 1 + 1, c.chromo, 1);
    CopyAligned(ref, c.pos - 1, c, loc);
  }

  /** The first location read after a chromosome change copies bases start
      to end of that chromosome's body, numbered from 1, when the body
      starts with a base. */
  lemma SwitchThenExtract(ref: string, cur: Cursor, loc: Location, c: Cursor)
    requires ValidCursor(ref, cur) && cur.chromo != loc.name && 1 <= loc.start <= loc.end
    requires ChangeChromosome(ref, cur, loc.name) == Ok(c) && IsBase(ref[c.pos - 1])
    ensures var bs := BodyBases(ref, c.pos - 1);
      var r := ProcessLocation(ref, cur, loc);
      && (r.Ok? <==> |bs| > loc.end)
      && (r.Ok? ==> r.value.1 == bs[loc.start - 1..loc.end])
  {
    ProcessAfterChange(ref, cur, loc, c);
    CopyAfterHeader(ref, c, loc);
  }

  /** A switch on a small reference: from chromosome "a", the seek for "b"
      passes the body "AC", reads the header ">b" and lands on its first
      base 'G', which meets the premises of `SwitchThenExtract`. */
  lemma SwitchExample(ref: string)
    requires ref == ">a\nAC\n>b\nGT\n"
    ensures ChangeChromosome(ref, Cursor(4, "a", 1), "b") == Ok(Cursor(10, "b", 1))
    ensures IsBase(ref[9])
  {
    assert ref[7] == 'b' && ref[8] == '\n' && ref[9] == 'G';
    NameAt(ref, 7, 8, 8, "b");
    assert HeaderAt(ref, 6, "b", 9);
    assert ref[4] == 'C' && ref[5] == '\n';
    SeekFindsFirstHeader(ref, 4, 6, "b", 9);
  }

  /** A body that does not start with a base shifts the numbering by one:
      after the header ">c", a blank line and "ACGT", the location c 1 2
      copies only "A" (the body's bases are "ACGT", so bases 1 to 2 are "AC"). */
  lemma LeadingNonBaseShifts()
    ensures Start(">c\n\nACGT\n") == Ok(Cursor(4, "c", 1))
    ensures ProcessLocation(">c\n\nACGT\n", Cursor(4, "c", 1), Location("c", 1, 2)) == Ok((Cursor(6, "c", 3), "A"))
  {
    BlankLineHeader();
    BlankLineCopy();
  }

  /** The header of the example is read up to its newline at index 2. */
  lemma BlankLineHeader()
    ensures ChromoName(">c\n\nACGT\n", 1) == Ok(("c", 3))
  {
    var ref := ">c\n\nACGT\n";
    assert ref[2] == '\n' && ref[1..][1] == '\n';
    var (name, q) := ChromoName(ref, 1).value;
    assert name == "c" && q == 3;
  }

  /** Copying bases 1 to 2 of the example, turn by turn of the copy loop. */
  lemma BlankLineCopy()
    ensures Copy(">c\n\nACGT\n", Cursor(4, "c", 1), Location("c", 1, 2)) == Ok((Cursor(6, "c", 3), "A"))
  {
    var ref := ">c\n\nACGT\n";
    assert Navigate(ref, 4, 1, 1) == Ok((4, 1));
    assert Extract(ref, 6, 3, 2, "A") == Ok(("A", 6, 3));
    assert Extract(ref, 5, 2, 2, []) == Extract(ref, 6, 3, 2, "A");
    assert Extract(ref, 4, 1, 2, []) == Extract(ref, 5, 2, 2, []);
  }
}

/** Character-level pieces of the masked-region extractor: scanning, the
    base alphabet, the location file's lines and `strtok`/`strtoul`
    parsing of one location. Files are sequences of characters read front
    to back; `getc` returning EOF is reaching the end of the sequence. */
module MaskText {
  import opened Results

  /** The ways the extractor stops with `exit(EXIT_FAILURE)`, plus the one
      (`ChromosomeNeverFound`) where it would loop for ever. */
  datatype MaskError =
    | ReferenceTooShort      // no character after a chromosome's header line
    | TooShortSeeking        // EOF while moving to a location's start
    | TooShortExtracting     // EOF while copying a location's bases
    | EndOfChromosome        // a '>' before the location's end was reached
    | EndBeforeStart         // a location whose end is below its start
    | UnexpectedEndOfFile    // a header line with no terminating newline
    | EndOfLocations         // a location line with no terminating newline
    | MalformedLocation      // fewer than three space-separated fields
    | ChromosomeNeverFound   // no later header names the location's chromosome

  /** The first index at or after `p` whose character satisfies `stop`, or
      |s| when there is none: the shape of every `getc` loop here. */
  function FirstFrom(s: string, p: nat, stop: char -> bool): (q: nat)
    requires p <= |s|
    ensures p <= q <= |s|
    ensures q < |s| ==> stop(s[q])
    ensures forall i :: p <= i < q ==> !stop(s[i])
    decreases |s| - p
  {
    if p == |s| || stop(s[p]) then p else FirstFrom(s, p + 1, stop)
  }

  /** The scan result is determined by where the first stopping character is. */
  lemma FirstFromIs(s: string, p: nat, stop: char -> bool, q: nat)
    requires p <= q <= |s|
    requires q < |s| ==> stop(s[q])
    requires forall i :: p <= i < q ==> !stop(s[i])
    ensures FirstFrom(s, p, stop) == q
  {
  }

  predicate IsNewline(c: char) { c == '\n' }

  /** The delimiter `strtok` is given. */
  predicate IsBlank(c: char) { c == ' ' }

  predicate NonBlank(c: char) { c != ' ' }

  /** The characters the extractor counts as bases (lines 107, 120, 132). */
  predicate IsBase(c: char) {
    c == 'A' || c == 'C' || c == 'G' || c == 'T' || c == 'N'
  }

  /** The base characters of `s`, in order. */
  function Bases(s: string): (b: string)
    ensures |b| <= |s|
    decreases |s|
  {
    if |s| == 0 then []
    else Bases(s[..|s| - 1]) + (if IsBase(s[|s| - 1]) then [s[|s| - 1]] else [])
  }

  lemma BasesSnoc(s: string, c: char)
    ensures Bases(s + [c]) == Bases(s) + (if IsBase(c) then [c] else [])
  {
    assert (s + [c])[..|s|] == s;
  }

  lemma {:induction false} BasesAppend(a: string, b: string)
    ensures Bases(a + b) == Bases(a) + Bases(b)
    decreases |b|
  {
    if |b| == 0 {
      assert a + b == a;
    } else {
      var front := b[..|b| - 1];
      var c := b[|b| - 1];
      assert b == front + [c];
      assert a + b == (a + front) + [c];
      BasesAppend(a, front);
      BasesSnoc(a + front, c);
      BasesSnoc(front, c);
    }
  }

  /** A string of bases is its own base sequence. */
  lemma {:induction false} BasesOfBases(s: string)
    requires forall i :: 0 <= i < |s| ==> IsBase(s[i])
    ensures Bases(s) == s
    decreases |s|
  {
    if |s| > 0 {
      BasesOfBases(s[..|s| - 1]);
      assert s == s[..|s| - 1] + [s[|s| - 1]];
    }
  }

  /** `num_locations`: the newlines of the location file (lines 59-63). */
  function CountNewlines(s: string): nat {
    multiset(s)['\n']
  }

  /** `get_next_loc`'s read loop (lines 213-237): the characters up to the
      next newline, which is consumed; EOF before it is an error. */
  function NextLine(s: string, p: nat): (r: Result<(string, nat), MaskError>)
    requires p <= |s|
    ensures r.Ok? <==> '\n' in s[p..]
    ensures r.Err? ==> r.error == EndOfLocations
    ensures r.Ok? ==> (p < r.value.1 <= |s| && s[r.value.1 - 1] == '\n'
      && r.value.0 == s[p..r.value.1 - 1] && '\n' !in r.value.0)
  {
    var e := FirstFrom(s, p, IsNewline);
    if e == |s| then Err(EndOfLocations) else Ok((s[p..e], e + 1))
  }

  /** Reading a line consumes exactly one of the counted newlines. */
  lemma NextLineConsumesOne(s: string, p: nat)
    requires p <= |s| && NextLine(s, p).Ok?
    ensures CountNewlines(s[NextLine(s, p).value.1..]) + 1 == CountNewlines(s[p..])
  {
    var q := NextLine(s, p).value.1;
    var line := NextLine(s, p).value.0;
    assert s[p..] == line + ['\n'] + s[q..];
    assert multiset(s[p..]) == multiset(line) + multiset(['\n']) + multiset(s[q..]);
    assert multiset(line)['\n'] == 0;
  }

  /** While newlines remain, a line can be read. */
  lemma LineAvailable(s: string, p: nat)
    requires p <= |s|
    ensures NextLine(s, p).Ok? <==> CountNewlines(s[p..]) > 0
  {
    assert '\n' in multiset(s[p..]) <==> '\n' in s[p..];
  }

  // Decimal numerals -------------------------------------------------------

  predicate IsDigit(c: char) {
    '0' <= c <= '9'
  }

  predicate NonDigit(c: char) { !IsDigit(c) }

  predicate AllDigits(s: string) {
    forall i :: 0 <= i < |s| ==> IsDigit(s[i])
  }

  /** The value of a string of decimal digits, most significant first. */
  function DecimalValue(ds: string): nat
    requires AllDigits(ds)
    decreases |ds|
  {
    if |ds| == 0 then 0
    else DecimalValue(ds[..|ds| - 1]) * 10 + (ds[|ds| - 1] as int - '0' as int)
  }

  function DigitChar(d: nat): (c: char)
    requires d < 10
    ensures IsDigit(c) && c as int - '0' as int == d
  {
    ('0' as int + d) as char
  }

  /** `%lu`: the decimal numeral of `n`, without leading zeros. */
  function NatToDecimal(n: nat): (ds: string)
    ensures 0 < |ds| && AllDigits(ds)
    ensures DecimalValue(ds) == n
    ensures |ds| > 1 ==> ds[0] != '0'
    decreases n
  {
    if n < 10 then [DigitChar(n)]
    else
      var front := NatToDecimal(n / 10);
      var ds := front + [DigitChar(n % 10)];
      assert ds[..|ds| - 1] == front;
      ds
  }

  const ULongModulus: nat := 0x1_0000_0000_0000_0000
  const ULongMax: nat := ULongModulus - 1

  /** The C locale's `isspace`: space, tab, newline, vertical tab, form feed, return. */
  predicate IsSpace(c: char) {
    c == ' ' || 9 <= c as int <= 13
  }

  predicate NonSpace(c: char) { !IsSpace(c) }

  /** `strtoul(t, NULL, 10)` for a 64-bit `unsigned long`: leading white
      space, an optional sign, then the longest run of digits; no digits
      gives 0, a value above ULONG_MAX gives ULONG_MAX, and a minus sign
      negates modulo 2^64. */
  function StrToUl(t: string): (v: nat)
    ensures v <= ULongMax
  {
    var i := FirstFrom(t, 0, NonSpace);
    var negative := i < |t| && t[i] == '-';
    var j := if i < |t| && (t[i] == '+' || t[i] == '-') then i + 1 else i;
    var k := FirstFrom(t, j, NonDigit);
    if k == j then 0
    else
      assert AllDigits(t[j..k]) by {
        forall x | 0 <= x < k - j ensures IsDigit(t[j..k][x]) {
          assert t[j..k][x] == t[j + x];
        }
      }
      var value := DecimalValue(t[j..k]);
      if value > ULongMax then ULongMax
      else if negative then (ULongModulus - value) % ULongModulus
      else value
  }

  /** `strtoul` reads back what `%lu` writes. */
  lemma StrToUlOfDecimal(n: nat)
    requires n <= ULongMax
    ensures StrToUl(NatToDecimal(n)) == n
  {
    var t := NatToDecimal(n);
    FirstFromIs(t, 0, NonSpace, 0);
    FirstFromIs(t, 0, NonDigit, |t|);
    assert t[0..|t|] == t;
  }

  /** `strtoul` stops at the first non-digit: "12abc" reads as 12. */
  lemma StrToUlStopsAtNonDigit(n: nat, rest: string)
    requires n <= ULongMax
    requires |rest| > 0 && !IsDigit(rest[0])
    ensures StrToUl(NatToDecimal(n) + rest) == n
  {
    var ds := NatToDecimal(n);
    var t := ds + rest;
    FirstFromIs(t, 0, NonSpace, 0);
    FirstFromIs(t, 0, NonDigit, |ds|);
    assert t[0..|ds|] == ds;
  }

  /** A negative numeral wraps around: "-n" reads as 2^64 - n. */
  lemma StrToUlNegative(n: nat)
    requires 0 < n <= ULongMax
    ensures StrToUl("-" + NatToDecimal(n)) == ULongModulus - n
  {
    NegativeNumeral(n);
  }

  /** "-n" has its sign at 0 and its digits, those of n, from 1 to the end. */
  lemma NegativeNumeral(n: nat)
    ensures var t := "-" + NatToDecimal(n);
      && FirstFrom(t, 0, NonSpace) == 0
      && FirstFrom(t, 1, NonDigit) == |t|
      && t[1..|t|] == NatToDecimal(n)
  {
    var ds := NatToDecimal(n);
    var t := "-" + ds;
    FirstFromIs(t, 0, NonSpace, 0);
    assert forall k :: 1 <= k < |t| ==> t[k] == ds[k - 1];
    FirstFromIs(t, 1, NonDigit, |t|);
    assert t[1..|t|] == ds;
  }

  // Location lines ---------------------------------------------------------

  /** One line of the location file: chromosome name, start and end, both
      1-based and inclusive. */
  datatype Location = Location(name: string, start: nat, end: nat)

  /** `strtok(…, " ")`: skip spaces, then the token runs to the next space,
      which is consumed; `None` when only spaces remain. */
  function NextToken(s: string, i: nat): (r: Option<(string, nat)>)
    requires i <= |s|
    ensures r.None? <==> forall j :: i <= j < |s| ==> s[j] == ' '
    ensures r.Some? ==> 0 < |r.value.0| && ' ' !in r.value.0 && i < r.value.1 <= |s|
  {
    var a := FirstFrom(s, i, NonBlank);
    if a == |s| then None
    else
      var b := FirstFrom(s, a, IsBlank);
      assert s[a] in s[a..b];
      Some((s[a..b], if b < |s| then b + 1 else b))
  }

  /** Lines 240-242: the first three space-separated fields. A missing field
      makes `strtok` return NULL, which the source then dereferences; here
      that is an error. Further fields are ignored. */
  function ParseLocation(line: string): (r: Result<Location, MaskError>)
    ensures r.Err? ==> r.error == MalformedLocation
    ensures r.Ok? ==> (0 < |r.value.name| && ' ' !in r.value.name
      && r.value.start <= ULongMax && r.value.end <= ULongMax)
    ensures (forall j :: 0 <= j < |line| ==> line[j] == ' ') ==> r.Err?
  {
    match NextToken(line, 0)
    case None => Err(MalformedLocation)
    case Some((name, i)) =>
      match NextToken(line, i)
      case None => Err(MalformedLocation)
      case Some((first, j)) =>
        match NextToken(line, j)
        case None => Err(MalformedLocation)
        case Some((last, _)) => Ok(Location(name, StrToUl(first), StrToUl(last)))
  }

  /** A location line as the repeat-masking step writes it. */
  function FormatLocation(loc: Location): string {
    loc.name + " " + NatToDecimal(loc.start) + " " + NatToDecimal(loc.end)
  }

  predicate WellFormedLocation(loc: Location) {
    0 < |loc.name| && ' ' !in loc.name && loc.start <= ULongMax && loc.end <= ULongMax
  }

  /** The token starting at `a` runs to the space at `b` (or the end). */
  lemma TokenAt(s: string, i: nat, a: nat, b: nat)
    requires i <= a < b <= |s|
    requires forall j :: i <= j < a ==> s[j] == ' '
    requires forall j :: a <= j < b ==> s[j] != ' '
    requires b < |s| ==> s[b] == ' '
    ensures NextToken(s, i) == Some((s[a..b], if b < |s| then b + 1 else b))
  {
    FirstFromIs(s, i, NonBlank, a);
    FirstFromIs(s, a, IsBlank, b);
  }

  /** A space-free token directly at `i`, followed by a space or the end. */
  lemma TokenFirst(s: string, i: nat, x: string, rest: string)
    requires i <= |s| && s[i..] == x + rest
    requires 0 < |x| && ' ' !in x
    requires rest == [] || rest[0] == ' '
    ensures NextToken(s, i) == Some((x, i + |x| + (if rest == [] then 0 else 1)))
  {
    forall j | i <= j < i + |x| ensures s[j] != ' ' {
      assert s[j] == s[i..][j - i] == x[j - i];
    }
    if rest != [] {
      assert s[i + |x|] == s[i..][|x|] == rest[0];
    }
    TokenAt(s, i, i, i + |x|);
    assert s[i..i + |x|] == (x + rest)[..|x|] == x;
  }

  /** A space-free token after `pre`, followed by a space or the end. */
  lemma TokenThenRest(pre: string, x: string, rest: string)
    requires 0 < |x| && ' ' !in x
    requires rest == [] || rest[0] == ' '
    ensures NextToken(pre + x + rest, |pre|) == Some((x, |pre| + |x| + (if rest == [] then 0 else 1)))
  {
    var s := pre + x + rest;
    assert s[|pre|..] == x + rest;
    TokenFirst(s, |pre|, x, rest);
  }

  /** Parsing a formatted location gives it back. */
  lemma ParseFormatLocation(loc: Location)
    requires WellFormedLocation(loc)
    ensures ParseLocation(FormatLocation(loc)) == Ok(loc)
  {
    var s := FormatLocation(loc);
    var a := NatToDecimal(loc.start);
    var b := NatToDecimal(loc.end);
    var i := |loc.name| + 1;
    var j := |loc.name| + 1 + |a| + 1;
    FirstToken(loc, s, i);
    SecondToken(loc, s, a, i, j);
    ThirdToken(loc, s, a, b, j);
    ParseFields(s, loc.name, a, b, i, j);
    StrToUlOfDecimal(loc.start);
    StrToUlOfDecimal(loc.end);
  }

  /** The first token of a formatted location is its name. */
  lemma FirstToken(loc: Location, s: string, i: nat)
    requires WellFormedLocation(loc)
    requires s == FormatLocation(loc) && i == |loc.name| + 1
    ensures i <= |s| && NextToken(s, 0) == Some((loc.name, i))
  {
    var a := NatToDecimal(loc.start);
    var b := NatToDecimal(loc.end);
    var rest := " " + a + " " + b;
    assert s == loc.name + rest;
    TokenFirst(s, 0, loc.name, rest);
  }

  /** The second token is the numeral of the start. */
  lemma SecondToken(loc: Location, s: string, a: string, i: nat, j: nat)
    requires s == FormatLocation(loc) && a == NatToDecimal(loc.start)
    requires i == |loc.name| + 1 && j == i + |a| + 1
    ensures i <= |s| && j <= |s| && NextToken(s, i) == Some((a, j))
  {
    var b := NatToDecimal(loc.end);
    NumeralHasNoSpace(loc.start);
    assert s == (loc.name + " ") + a + (" " + b);
    TokenThenRest(loc.name + " ", a, " " + b);
  }

  /** The third token is the numeral of the end. */
  lemma ThirdToken(loc: Location, s: string, a: string, b: string, j: nat)
    requires s == FormatLocation(loc) && a == NatToDecimal(loc.start) && b == NatToDecimal(loc.end)
    requires j == |loc.name| + 1 + |a| + 1
    ensures j <= |s| && NextToken(s, j).Some? && NextToken(s, j).value.0 == b
  {
    NumeralHasNoSpace(loc.end);
    assert s == (loc.name + " " + a + " ") + b + [];
    TokenThenRest(loc.name + " " + a + " ", b, []);
  }

  /** A numeral holds no space, so `strtok` keeps it whole. */
  lemma NumeralHasNoSpace(n: nat)
    ensures ' ' !in NatToDecimal(n)
  {
    var a := NatToDecimal(n);
    assert forall k :: 0 <= k < |a| ==> IsDigit(a[k]);
  }

  /** Three tokens in a row make a location. */
  lemma ParseFields(s: string, x: string, y: string, z: string, i: nat, j: nat)
    requires i <= |s| && j <= |s|
    requires NextToken(s, 0) == Some((x, i))
    requires NextToken(s, i) == Some((y, j))
    requires NextToken(s, j).Some? && NextToken(s, j).value.0 == z
    ensures ParseLocation(s) == Ok(Location(x, StrToUl(y), StrToUl(z)))
  {
  }
}

/**
 * The report date (`PDFParser._extract_date`): the first page's text is searched with
 * `re.search` for `(\d{1,2})\.(\d{2})\.(\d{4})\s*й\.`, as in "8.01.2026 й.", and the three
 * groups become a `datetime.date`.
 */
module DateExtractor {
  import opened Wrappers
  import opened Text
  import opened DomainModels
  import opened Exceptions

  /** `n` ASCII digits at position `i` of `t`. */
  predicate DigitsAt(t: string, i: nat, n: nat) {
    i + n <= |t| && AllDigits(t[i..i + n])
  }

  predicate CharAt(t: string, i: nat, c: char) {
    i < |t| && t[i] == c
  }

  /** `\s*й\.` at position `q`: the greedy run of whitespace, then the letter "й" and a full stop. */
  predicate YearMarkAt(t: string, q: nat)
    requires q <= |t|
  {
    var k := SkipSpaces(t, q);
    CharAt(t, k, '\U{0439}') && CharAt(t, k + 1, '.')
  }

  /** `\.(\d{2})\.(\d{4})\s*й\.` at position `p`, right after the day. */
  predicate RestAt(t: string, p: nat) {
    CharAt(t, p, '.') && DigitsAt(t, p + 1, 2) && CharAt(t, p + 3, '.') && DigitsAt(t, p + 4, 4) &&
    YearMarkAt(t, p + 8)
  }

  /**
   * The number of day digits of the match starting at `i`, if one does: `\d{1,2}` tries two digits
   * first and backtracks to one.
   */
  function DayLengthAt(t: string, i: nat): (r: Option<nat>)
    ensures r.Some? ==> (r.value == 1 || r.value == 2) && DigitsAt(t, i, r.value) && RestAt(t, i + r.value)
  {
    if DigitsAt(t, i, 2) && RestAt(t, i + 2) then Some(2)
    else if DigitsAt(t, i, 1) && RestAt(t, i + 1) then Some(1)
    else None
  }

  /**
   * The pattern, read declaratively: an `n`-digit day at `i`, a point, two month digits, a point,
   * four year digits, whitespace up to `k`, then "й.".
   */
  predicate PatternMatch(t: string, i: nat, n: nat, k: nat) {
    (n == 1 || n == 2) && DigitsAt(t, i, n) && CharAt(t, i + n, '.') && DigitsAt(t, i + n + 1, 2) &&
    CharAt(t, i + n + 3, '.') && DigitsAt(t, i + n + 4, 4) && i + n + 8 <= k &&
    CharAt(t, k, '\U{0439}') && CharAt(t, k + 1, '.') &&
    (forall x :: i + n + 8 <= x < k ==> IsSpace(t[x]))
  }

  /** `re.search`: the leftmost position from `from` on where the pattern matches. */
  function FirstMatch(t: string, from: nat): (r: Option<nat>)
    requires from <= |t|
    ensures r.Some? ==> from <= r.value < |t| && DayLengthAt(t, r.value).Some?
    ensures forall j :: from <= j < (if r.Some? then r.value else |t|) ==> DayLengthAt(t, j).None?
    decreases |t| - from
  {
    if from == |t| then None
    else if DayLengthAt(t, from).Some? then Some(from)
    else FirstMatch(t, from + 1)
  }

  /** The three groups of the match at `i` with an `n`-digit day, each read by `int`. */
  function Groups(t: string, i: nat, n: nat): Date
    requires DigitsAt(t, i, n) && RestAt(t, i + n)
  {
    Date(DigitsValue(t[i + n + 4..i + n + 8]), DigitsValue(t[i + n + 1..i + n + 3]), DigitsValue(t[i..i + n]))
  }

  /** `PDFParser._extract_date`, given the text the decoder extracted from the first page. */
  function ExtractDate(text: Option<string>): Result<Date, ParserError> {
    if text.None? || text.value == [] then Failure(DataExtractionError(NoPageText))
    else
      match FirstMatch(text.value, 0)
      case None => Failure(DataExtractionError(DatePatternNotFound))
      case Some(i) =>
        var d := Groups(text.value, i, DayLengthAt(text.value, i).value);
        if ValidDate(d) then Success(d)
        else Failure(DataExtractionError(InvalidDateValues(d.day, d.month, d.year)))
  }

  // ---------------------------------------------------------------------------------------------
  // The search agrees with the regular expression

  /** The greedy whitespace run followed by "й." exists exactly when some whitespace run is. */
  lemma YearMarkMatches(t: string, q: nat)
    requires q <= |t|
    ensures YearMarkAt(t, q) <==>
      exists k :: q <= k && CharAt(t, k, '\U{0439}') && CharAt(t, k + 1, '.') &&
        forall x :: q <= x < k ==> IsSpace(t[x])
  {
    var s := SkipSpaces(t, q);
    if k :| q <= k && CharAt(t, k, '\U{0439}') && CharAt(t, k + 1, '.') && forall x :: q <= x < k ==> IsSpace(t[x]) {
      assert !IsSpace(t[k]);
    }
  }

  /**
   * `DayLengthAt` finds the match of the regular expression that starts at `i`, and its day
   * length is the only one possible there.
   */
  lemma DayLengthAtMatches(t: string, i: nat, n: nat)
    ensures DayLengthAt(t, i) == Some(n) <==> exists k :: PatternMatch(t, i, n, k)
  {
    if DayLengthAt(t, i) == Some(n) {
      DayLengthAtSound(t, i, n);
    }
    if k :| PatternMatch(t, i, n, k) {
      DayLengthAtComplete(t, i, n, k);
    }
  }

  lemma DayLengthAtSound(t: string, i: nat, n: nat)
    requires DayLengthAt(t, i) == Some(n)
    ensures PatternMatch(t, i, n, SkipSpaces(t, i + n + 8))
  {
  }

  lemma DayLengthAtComplete(t: string, i: nat, n: nat, k: nat)
    requires PatternMatch(t, i, n, k)
    ensures DayLengthAt(t, i) == Some(n)
  {
    YearMarkMatches(t, i + n + 8);
    assert RestAt(t, i + n);
    if n == 1 {
      assert !DigitsAt(t, i, 2) by {
        assert t[i..i + 2][1] == '.';
      }
    }
  }

  /** The first match is the one `FirstMatch` reports, whatever follows it. */
  lemma {:induction false} FirstMatchAt(t: string, from: nat, i: nat)
    requires from <= i < |t| && DayLengthAt(t, i).Some?
    requires forall j :: from <= j < i ==> DayLengthAt(t, j).None?
    ensures FirstMatch(t, from) == Some(i)
    decreases i - from
  {
    if from < i {
      FirstMatchAt(t, from + 1, i);
    }
  }

  /** The match at `i` with an `n`-digit day is the leftmost match of the pattern in `t`. */
  ghost predicate LeftmostMatch(t: string, i: nat, n: nat) {
    (exists k: nat :: PatternMatch(t, i, n, k)) &&
    forall j: nat, m: nat, l: nat :: j < i ==> !PatternMatch(t, j, m, l)
  }

  /**
   * Whatever `ExtractDate` reports about a non-empty text: a date is the groups of the leftmost
   * match of the pattern and a valid calendar date; an invalid-date failure carries the groups of
   * the leftmost match, which the calendar rejects; "not found" means the pattern matches nowhere;
   * no other failure is possible.
   */
  lemma ExtractDateLeftmost(t: string)
    requires t != []
    ensures ExtractDate(Some(t)).Success? ==>
      ValidDate(ExtractDate(Some(t)).value) &&
      exists i: nat, n: nat :: LeftmostMatch(t, i, n) && DayLengthAt(t, i) == Some(n) &&
        Groups(t, i, n) == ExtractDate(Some(t)).value
    ensures (ExtractDate(Some(t)).Failure? && ExtractDate(Some(t)).error.DataExtractionError? &&
             ExtractDate(Some(t)).error.failure.InvalidDateValues?) ==>
      var f := ExtractDate(Some(t)).error.failure;
      !ValidDate(Date(f.year, f.month, f.day)) &&
      exists i: nat, n: nat :: LeftmostMatch(t, i, n) && DayLengthAt(t, i) == Some(n) &&
        Groups(t, i, n) == Date(f.year, f.month, f.day)
    ensures ExtractDate(Some(t)) == Failure(DataExtractionError(DatePatternNotFound)) <==>
      forall i: nat, n: nat, k: nat :: !PatternMatch(t, i, n, k)
    ensures ExtractDate(Some(t)).Success? || ExtractDate(Some(t)).error.DataExtractionError?
    ensures ExtractDate(Some(t)).Failure? ==>
      ExtractDate(Some(t)).error.failure.InvalidDateValues? ||
      ExtractDate(Some(t)).error.failure.DatePatternNotFound?
  {
    match FirstMatch(t, 0)
    case None =>
      forall i: nat, n: nat, k: nat | PatternMatch(t, i, n, k) ensures false {
        DayLengthAtMatches(t, i, n);
      }
    case Some(i) =>
      var n := DayLengthAt(t, i).value;
      DayLengthAtMatches(t, i, n);
      forall j: nat, m: nat, l: nat | j < i && PatternMatch(t, j, m, l) ensures false {
        DayLengthAtMatches(t, j, m);
      }
      assert LeftmostMatch(t, i, n);
  }

  /**
   * The converse: the leftmost match of the pattern decides the outcome, its groups as the date
   * when the calendar accepts them, the invalid-date failure carrying them otherwise.
   */
  lemma ExtractDateOfLeftmost(t: string, i: nat, n: nat)
    requires LeftmostMatch(t, i, n) && DayLengthAt(t, i) == Some(n)
    ensures var d := Groups(t, i, n);
      ExtractDate(Some(t)) ==
        if ValidDate(d) then Success(d)
        else Failure(DataExtractionError(InvalidDateValues(d.day, d.month, d.year)))
  {
    forall j | 0 <= j < i
      ensures DayLengthAt(t, j).None?
    {
      if DayLengthAt(t, j).Some? {
        DayLengthAtSound(t, j, DayLengthAt(t, j).value);
      }
    }
    FirstMatchAt(t, 0, i);
  }

  /** Without text, the first page yields the "no text" failure. */
  lemma ExtractDateNoText(text: Option<string>)
    requires text.None? || text == Some([])
    ensures ExtractDate(text) == Failure(DataExtractionError(NoPageText))
  {
  }

  // ---------------------------------------------------------------------------------------------
  // Round trip with the way reports print dates

  /** "D.MM.YYYY й.", as in "8.01.2026 й.". */
  function RenderDate(d: Date): string {
    NatToDigits(d.day) + ("." + (PaddedDigits(d.month, 2) + ("." + (PaddedDigits(d.year, 4) + " \U{0439}."))))
  }

  /** Where the fields of a printed date sit. */
  lemma RenderDateLayout(d: Date)
    requires d.month < 100 && d.year < 10000
    ensures var r, n := RenderDate(d), |NatToDigits(d.day)|;
      |r| == n + 11 &&
      r[..n] == NatToDigits(d.day) && r[n] == '.' && r[n + 1..n + 3] == PaddedDigits(d.month, 2) &&
      r[n + 3] == '.' && r[n + 4..n + 8] == PaddedDigits(d.year, 4) &&
      r[n + 8] == ' ' && r[n + 9] == '\U{0439}' && r[n + 10] == '.'
  {
    NatToDigitsLength(d.month, 2);
    NatToDigitsLength(d.year, 4);
  }

  /** No match starts at a character that is not a digit. */
  lemma NoMatchAtNonDigit(t: string, j: nat)
    requires j < |t| && !IsDigit(t[j])
    ensures DayLengthAt(t, j).None?
  {
    assert !DigitsAt(t, j, 1) by {
      if j + 1 <= |t| {
        assert t[j..j + 1][0] == t[j];
      }
    }
    assert !DigitsAt(t, j, 2) by {
      if j + 2 <= |t| {
        assert t[j..j + 2][0] == t[j];
      }
    }
  }

  /** A text placed after `prefix` is found, slice by slice, right after it. */
  lemma PlacedSlice(prefix: string, r: string, suffix: string, a: nat, b: nat)
    requires a <= b <= |r|
    ensures (prefix + r + suffix)[|prefix| + a..|prefix| + b] == r[a..b]
  {
    var t := prefix + r + suffix;
    assert forall x :: a <= x < b ==> t[|prefix| + x] == r[x];
  }

  lemma PlacedChar(prefix: string, r: string, suffix: string, a: nat)
    requires a < |r|
    ensures (prefix + r + suffix)[|prefix| + a] == r[a]
  {
  }

  /** The printed fields of `d`, with its `n`-digit day, sit in `t` from `p` on. */
  predicate DateAt(t: string, p: nat, n: nat, d: Date) {
    (n == 1 || n == 2) && n == |NatToDigits(d.day)| && p + n + 11 <= |t| &&
    t[p..p + n] == NatToDigits(d.day) && t[p + n] == '.' &&
    t[p + n + 1..p + n + 3] == PaddedDigits(d.month, 2) && t[p + n + 3] == '.' &&
    t[p + n + 4..p + n + 8] == PaddedDigits(d.year, 4) &&
    t[p + n + 8] == ' ' && t[p + n + 9] == '\U{0439}' && t[p + n + 10] == '.'
  }

  /** Where the fields of a printed date sit once it is placed after `prefix`. */
  lemma PlacedDateLayout(d: Date, prefix: string, suffix: string)
    requires d.day < 100 && d.month < 100 && d.year < 10000
    ensures DateAt(prefix + RenderDate(d) + suffix, |prefix|, |NatToDigits(d.day)|, d)
  {
    var r := RenderDate(d);
    var n := |NatToDigits(d.day)|;
    RenderDateLayout(d);
    NatToDigitsLength(d.day, 2);
    PlacedSlice(prefix, r, suffix, 0, n);
    PlacedSlice(prefix, r, suffix, n + 1, n + 3);
    PlacedSlice(prefix, r, suffix, n + 4, n + 8);
    PlacedChar(prefix, r, suffix, n);
    PlacedChar(prefix, r, suffix, n + 3);
    PlacedChar(prefix, r, suffix, n + 8);
    PlacedChar(prefix, r, suffix, n + 9);
    PlacedChar(prefix, r, suffix, n + 10);
  }

  /** A printed date matches the pattern where it starts, with its day's digits... */
  lemma DateAtMatch(t: string, p: nat, n: nat, d: Date)
    requires DateAt(t, p, n, d)
    ensures DayLengthAt(t, p) == Some(n)
  {
    assert SkipSpaces(t, p + n + 8) == p + n + 9 by {
      assert IsSpace(t[p + n + 8]) && !IsSpace(t[p + n + 9]);
    }
    assert RestAt(t, p + n);
    if n == 1 {
      assert !DigitsAt(t, p, 2) by {
        assert t[p..p + 2][1] == '.';
      }
    }
  }

  /** ... and the groups of that match are its fields. */
  lemma DateAtGroups(t: string, p: nat, n: nat, d: Date)
    requires DateAt(t, p, n, d)
    ensures DigitsAt(t, p, n) && RestAt(t, p + n) && Groups(t, p, n) == d
  {
    DateAtMatch(t, p, n, d);
    NatToDigitsValue(d.day);
    PaddedDigitsValue(d.month, 2);
    PaddedDigitsValue(d.year, 4);
  }

  /** No match starts inside text that holds no digit. */
  lemma PrefixNoMatch(prefix: string, r: string, suffix: string)
    requires forall x :: 0 <= x < |prefix| ==> !IsDigit(prefix[x])
    ensures forall j :: 0 <= j < |prefix| ==> DayLengthAt(prefix + r + suffix, j).None?
  {
    var t := prefix + r + suffix;
    forall j | 0 <= j < |prefix|
      ensures DayLengthAt(t, j).None?
    {
      assert t[j] == prefix[j];
      NoMatchAtNonDigit(t, j);
    }
  }

  /**
   * A date printed as the reports print it, after text holding no digit, is read back: as that
   * date when the calendar has it, and as the invalid-date failure carrying its fields otherwise.
   */
  lemma ExtractRenderedDate(d: Date, prefix: string, suffix: string)
    requires d.day < 100 && d.month < 100 && d.year < 10000
    requires forall x :: 0 <= x < |prefix| ==> !IsDigit(prefix[x])
    ensures ExtractDate(Some(prefix + RenderDate(d) + suffix)) ==
      if ValidDate(d) then Success(d) else Failure(DataExtractionError(InvalidDateValues(d.day, d.month, d.year)))
  {
    var t := prefix + RenderDate(d) + suffix;
    var p, n := |prefix|, |NatToDigits(d.day)|;
    PlacedDateLayout(d, prefix, suffix);
    DateAtMatch(t, p, n, d);
    DateAtGroups(t, p, n, d);
    PrefixNoMatch(prefix, RenderDate(d), suffix);
    FirstMatchAt(t, 0, p);
  }

  /** The printed form of a date, put together from the printed fields. */
  lemma RenderDateOf(d: Date, day: string, month: string, year: string)
    requires NatToDigits(d.day) == day && PaddedDigits(d.month, 2) == month && PaddedDigits(d.year, 4) == year
    ensures RenderDate(d) == day + "." + month + "." + year + " \U{0439}."
  {
  }

  lemma FourDigitYears()
    ensures PaddedDigits(2025, 4) == "2025" && PaddedDigits(2026, 4) == "2026"
  {
    assert NatToDigits(2) == "2";
    assert NatToDigits(20) == "20";
    assert NatToDigits(202) == "202";
    assert NatToDigits(2025) == "2025";
    assert NatToDigits(2026) == "2026";
  }

  lemma ReportDatePrinted()
    ensures RenderDate(Date(2026, 1, 8)) == "8.01.2026 \U{0439}."
  {
    DayAndMonthFields();
    FourDigitYears();
    RenderDateOf(Date(2026, 1, 8), "8", "01", "2026");
  }

  lemma DayAndMonthFields()
    ensures NatToDigits(8) == "8" && NatToDigits(29) == "29"
    ensures PaddedDigits(1, 2) == "01" && PaddedDigits(2, 2) == "02"
  {
    assert NatToDigits(1) == "1";
    assert NatToDigits(2) == "2";
  }

  /** A printed date on its own is read back as that date, or as the invalid-date failure. */
  lemma ExtractPrintedDate(d: Date, s: string)
    requires d.day < 100 && d.month < 100 && d.year < 10000
    requires s == RenderDate(d)
    ensures ExtractDate(Some(s)) ==
      if ValidDate(d) then Success(d) else Failure(DataExtractionError(InvalidDateValues(d.day, d.month, d.year)))
  {
    ExtractRenderedDate(d, "", "");
    assert "" + RenderDate(d) + "" == s;
  }

  /** "8.01.2026 й." is 8 January 2026. */
  lemma ExampleReportDate()
    ensures ExtractDate(Some("8.01.2026 \U{0439}.")) == Success(Date(2026, 1, 8))
  {
    ReportDatePrinted();
    ExtractPrintedDate(Date(2026, 1, 8), "8.01.2026 \U{0439}.");
  }

  lemma NoLeapDayPrinted()
    ensures RenderDate(Date(2025, 2, 29)) == "29.02.2025 \U{0439}."
  {
    DayAndMonthFields();
    FourDigitYears();
    RenderDateOf(Date(2025, 2, 29), "29", "02", "2025");
  }

  /** "29.02.2025 й." names a day 2025 does not have. */
  lemma ExampleNoLeapDay()
    ensures ExtractDate(Some("29.02.2025 \U{0439}.")) == Failure(DataExtractionError(InvalidDateValues(29, 2, 2025)))
  {
    NoLeapDayPrinted();
    assert !ValidDate(Date(2025, 2, 29));
    ExtractPrintedDate(Date(2025, 2, 29), "29.02.2025 \U{0439}.");
  }
}

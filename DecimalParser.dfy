/**
 * The tolerant cell-to-number conversion of the report parser (`PDFParser._parse_decimal`):
 * strip, reject placeholders, read commas as decimal points, delete every character that is
 * not a digit, '.' or '-', and read what is left as a Python `Decimal` literal. It never fails:
 * anything it cannot read is `None`.
 */
module DecimalParser {
  import opened Wrappers
  import opened Text
  import opened DomainModels

  /** A table cell as the PDF decoder yields it: text, or `None` for an empty grid position. */
  type Cell = Option<string>

  /** The placeholders a report writes for a missing figure: empty, a dash, an em dash. */
  predicate IsPlaceholder(s: string) {
    s == "" || s == "-" || s == "\U{2014}"
  }

  /** The characters the cleaning step keeps: ASCII digits, '.' and '-'. */
  predicate IsNumeralChar(c: char) {
    IsDigit(c) || c == '.' || c == '-'
  }

  /** `re.sub(r"[^\d\.\-]", "", s)`: every character other than a digit, '.' or '-' deleted. */
  function Clean(s: string): (r: string)
    ensures |r| <= |s|
    ensures forall i :: 0 <= i < |r| ==> IsNumeralChar(r[i])
  {
    if s == [] then []
    else Clean(s[..|s| - 1]) + (if IsNumeralChar(s[|s| - 1]) then [s[|s| - 1]] else [])
  }

  /**
   * `Decimal(t)` for a string of digits, '.' and '-': an optional leading minus, then digits with
   * at most one decimal point and at least one digit; anything else is `InvalidOperation` (`None`).
   */
  function ParseNumeral(t: string): Option<Decimal> {
    var negative := |t| > 0 && t[0] == '-';
    ParseBody(negative, if negative then t[1..] else t)
  }

  /** The unsigned part of a numeral: digits, at most one point, at least one digit. */
  function ParseBody(negative: bool, body: string): Option<Decimal> {
    var point := FirstIndex(body, '.', 0);
    var whole := body[..point];
    var fraction := if point < |body| then body[point + 1..] else [];
    if AllDigits(whole) && AllDigits(fraction) && |whole| + |fraction| > 0
    then Some(Decimal(negative, DigitsValue(whole + fraction), |fraction|))
    else None
  }

  /** `PDFParser._parse_decimal`. */
  function ParseDecimal(cell: Cell): Option<Decimal> {
    match cell
    case None => None
    case Some(raw) =>
      var s := Strip(raw);
      if IsPlaceholder(s) then None
      else
        var cleaned := Clean(Replace(s, ',', '.'));
        if cleaned == [] then None else ParseNumeral(cleaned)
  }

  /** The text `ParseDecimal` reads a number from, once placeholders are ruled out. */
  function Cleaned(raw: string): string {
    Clean(Replace(Strip(raw), ',', '.'))
  }

  /** A well-formed numeral over digits, '.' and '-', described character by character. */
  predicate WellFormedNumeral(t: string) {
    (forall i :: 0 <= i < |t| ==> IsNumeralChar(t[i])) &&
    (forall i :: 0 < i < |t| ==> t[i] != '-') &&
    (forall i, j :: 0 <= i < j < |t| && t[i] == '.' ==> t[j] != '.') &&
    (exists i :: 0 <= i < |t| && IsDigit(t[i]))
  }

  // ---------------------------------------------------------------------------------------------
  // The cleaning step

  lemma {:induction false} CleanConcat(a: string, b: string)
    ensures Clean(a + b) == Clean(a) + Clean(b)
    decreases |b|
  {
    if b == [] {
      assert a + b == a;
    } else {
      assert (a + b)[..|a + b| - 1] == a + b[..|b| - 1];
      CleanConcat(a, b[..|b| - 1]);
    }
  }

  /** Cleaning deletes exactly the characters outside digits, '.' and '-': none of those survive... */
  lemma {:induction false} CleanDropsAll(s: string)
    requires forall i :: 0 <= i < |s| ==> !IsNumeralChar(s[i])
    ensures Clean(s) == []
  {
    if s != [] {
      CleanDropsAll(s[..|s| - 1]);
    }
  }

  /** ... and all of those survive, in order. */
  lemma {:induction false} CleanKeepsAll(s: string)
    requires forall i :: 0 <= i < |s| ==> IsNumeralChar(s[i])
    ensures Clean(s) == s
  {
    if s != [] {
      CleanKeepsAll(s[..|s| - 1]);
      assert s == s[..|s| - 1] + [s[|s| - 1]];
    }
  }

  /** Whitespace is all deleted by cleaning. */
  lemma CleanSpaces(s: string)
    requires AllSpace(s)
    ensures Clean(s) == []
  {
    assert forall i :: 0 <= i < |s| ==> !IsNumeralChar(s[i]) by {
      forall i | 0 <= i < |s| ensures !IsNumeralChar(s[i]) {
        assert IsSpace(s[i]);
      }
    }
    CleanDropsAll(s);
  }

  /** Whitespace around a text is deleted by cleaning. */
  lemma CleanAround(a: string, m: string, b: string)
    requires AllSpace(a) && AllSpace(b)
    ensures Clean(a + m + b) == Clean(m)
  {
    CleanSpaces(a);
    CleanSpaces(b);
    CleanConcat(a, m);
    CleanConcat(a + m, b);
  }

  /** `Strip` cuts `s` into leading whitespace, what it keeps, and trailing whitespace. */
  lemma StripParts(s: string) returns (a: string, b: string)
    ensures AllSpace(a) && AllSpace(b) && s == a + Strip(s) + b
  {
    var i := SkipSpaces(s, 0);
    var e := SkipSpacesBack(s, i, |s|);
    a, b := s[..i], s[e..];
    assert s == a + s[i..e] + b;
  }

  /** Whitespace is not a numeral character, so stripping before cleaning changes nothing. */
  lemma CleanIgnoresStrip(s: string)
    ensures Clean(Strip(s)) == Clean(s)
  {
    var a, b := StripParts(s);
    CleanAround(a, Strip(s), b);
  }

  // ---------------------------------------------------------------------------------------------
  // Which leftovers are numbers

  /** Where the sign ends in a leftover: 1 after a leading minus, 0 otherwise. */
  function SignLength(t: string): nat {
    if |t| > 0 && t[0] == '-' then 1 else 0
  }

  /** A body that parses is digits with one '.' at most, namely at its first point. */
  lemma BodyShape(negative: bool, body: string)
    requires ParseBody(negative, body).Some?
    ensures var point := FirstIndex(body, '.', 0);
      (forall x :: 0 <= x < |body| && x != point ==> IsDigit(body[x])) &&
      (exists x :: 0 <= x < |body| && IsDigit(body[x]))
  {
    var point := FirstIndex(body, '.', 0);
    var whole := body[..point];
    var fraction := if point < |body| then body[point + 1..] else [];
    forall x | 0 <= x < |body| && x != point
      ensures IsDigit(body[x])
    {
      if x < point {
        assert body[x] == whole[x];
      } else {
        assert body[x] == fraction[x - point - 1];
      }
    }
    if |whole| > 0 {
      assert IsDigit(body[0]);
    } else {
      assert IsDigit(body[point + 1]);
    }
  }

  /** A body of digits and at most one '.', holding a digit, parses. */
  lemma BodyParses(negative: bool, body: string)
    requires forall x :: 0 <= x < |body| ==> IsDigit(body[x]) || body[x] == '.'
    requires forall x, y :: 0 <= x < y < |body| && body[x] == '.' ==> body[y] != '.'
    requires exists x :: 0 <= x < |body| && IsDigit(body[x])
    ensures ParseBody(negative, body).Some?
  {
    var point := FirstIndex(body, '.', 0);
    var whole := body[..point];
    var fraction := if point < |body| then body[point + 1..] else [];
    assert AllDigits(whole) by {
      forall x | 0 <= x < |whole| ensures IsDigit(whole[x]) {
        assert whole[x] == body[x];
      }
    }
    assert AllDigits(fraction) by {
      forall x | 0 <= x < |fraction| ensures IsDigit(fraction[x]) {
        assert fraction[x] == body[x + point + 1];
      }
    }
    var k :| 0 <= k < |body| && IsDigit(body[k]);
    assert k != point;
  }

  /** Numeral characters forming digits after the sign, with one '.' at most at `dot`, and a digit: a well-formed numeral. */
  lemma SignedShape(t: string, off: nat, dot: nat)
    requires off == SignLength(t) && forall i :: 0 <= i < |t| ==> IsNumeralChar(t[i])
    requires forall i :: off <= i < |t| && i != dot ==> IsDigit(t[i])
    requires dot < |t| ==> t[dot] == '.'
    requires exists i :: off <= i < |t| && IsDigit(t[i])
    ensures WellFormedNumeral(t)
  {
    assert forall i :: 0 < i < |t| ==> t[i] != '-' by {
      forall i | 0 < i < |t| ensures t[i] != '-' {
        assert off <= i;
      }
    }
    assert forall i, j :: 0 <= i < j < |t| && t[i] == '.' ==> t[j] != '.' by {
      forall i, j | 0 <= i < j < |t| && t[i] == '.'
        ensures t[j] != '.'
      {
        assert off <= i && !IsDigit(t[i]);
        assert IsDigit(t[j]);
      }
    }
  }

  /** A numeral is its sign, then its body. */
  lemma SignSplit(t: string)
    ensures ParseNumeral(t) == ParseBody(SignLength(t) == 1, t[SignLength(t)..])
  {
    assert SignLength(t) == 0 ==> t[0..] == t;
  }

  lemma ParseNumeralSound(t: string)
    requires forall i :: 0 <= i < |t| ==> IsNumeralChar(t[i])
    requires ParseNumeral(t).Some?
    ensures WellFormedNumeral(t)
  {
    var off := SignLength(t);
    var body := t[off..];
    var point := FirstIndex(body, '.', 0);
    SignSplit(t);
    BodyShape(off == 1, body);
    forall i | off <= i < |t| && i != point + off
      ensures IsDigit(t[i])
    {
      assert t[i] == body[i - off];
    }
    var k :| 0 <= k < |body| && IsDigit(body[k]);
    assert IsDigit(t[k + off]);
    assert point + off < |t| ==> t[point + off] == body[point] == '.';
    SignedShape(t, off, point + off);
  }

  /** After its sign, a well-formed numeral is digits with one '.' at most, and holds a digit. */
  lemma WellFormedBody(t: string)
    requires WellFormedNumeral(t)
    ensures var body := t[SignLength(t)..];
      (forall x :: 0 <= x < |body| ==> IsDigit(body[x]) || body[x] == '.') &&
      (forall x, y :: 0 <= x < y < |body| && body[x] == '.' ==> body[y] != '.') &&
      (exists x :: 0 <= x < |body| && IsDigit(body[x]))
  {
    var off := SignLength(t);
    var body := t[off..];
    forall x | 0 <= x < |body|
      ensures IsDigit(body[x]) || body[x] == '.'
    {
      assert body[x] == t[x + off];
      assert IsNumeralChar(t[x + off]);
      assert x + off > 0 || t[0] != '-';
    }
    forall x, y | 0 <= x < y < |body| && body[x] == '.'
      ensures body[y] != '.'
    {
      assert body[x] == t[x + off] && body[y] == t[y + off];
    }
    var k :| 0 <= k < |t| && IsDigit(t[k]);
    assert k >= off;
    assert body[k - off] == t[k];
  }

  lemma ParseNumeralComplete(t: string)
    requires WellFormedNumeral(t)
    ensures ParseNumeral(t).Some?
  {
    WellFormedBody(t);
    BodyParses(SignLength(t) == 1, t[SignLength(t)..]);
    SignSplit(t);
  }

  /**
   * A cleaned leftover is read as a number exactly when it is well formed: a minus sign only in
   * front, at most one decimal point, at least one digit. So "1.2.3", "-", "." and "1-2" are not.
   */
  lemma ParseNumeralDefined(t: string)
    requires forall i :: 0 <= i < |t| ==> IsNumeralChar(t[i])
    ensures ParseNumeral(t).Some? <==> WellFormedNumeral(t)
  {
    if ParseNumeral(t).Some? {
      ParseNumeralSound(t);
    }
    if WellFormedNumeral(t) {
      ParseNumeralComplete(t);
    }
  }

  // ---------------------------------------------------------------------------------------------
  // How ParseDecimal behaves

  /** `ParseDecimal` is `None` for an absent cell, for placeholders, and when nothing survives cleaning. */
  lemma ParseDecimalNone(cell: Cell)
    requires cell.None? || IsPlaceholder(Strip(cell.value)) ||
             forall i :: 0 <= i < |cell.value| ==> !IsNumeralChar(cell.value[i]) && cell.value[i] != ','
    ensures ParseDecimal(cell) == None
  {
    if cell.Some? && !IsPlaceholder(Strip(cell.value)) {
      var raw := cell.value;
      assert Replace(raw, ',', '.') == raw;
      StripReplace(raw, ',', '.');
      CleanIgnoresStrip(raw);
      CleanDropsAll(raw);
    }
  }

  /**
   * Apart from placeholders and absent cells, `ParseDecimal` yields a number exactly when the
   * cleaned text is a well-formed numeral.
   */
  lemma ParseDecimalDefined(raw: string)
    ensures ParseDecimal(Some(raw)).Some? <==> !IsPlaceholder(Strip(raw)) && WellFormedNumeral(Cleaned(raw))
  {
    ParseNumeralDefined(Cleaned(raw));
  }

  lemma PlaceholderReplace(s: string)
    ensures IsPlaceholder(Replace(s, ',', '.')) <==> IsPlaceholder(s)
  {
    if |s| == 1 {
      assert Replace(s, ',', '.')[0] == if s[0] == ',' then '.' else s[0];
    }
  }

  /** A comma reads as a decimal point: "81,03" and "81.03" are the same number. */
  lemma CommaIsPoint(raw: string)
    ensures ParseDecimal(Some(Replace(raw, ',', '.'))) == ParseDecimal(Some(raw))
  {
    var dotted := Replace(raw, ',', '.');
    StripReplace(raw, ',', '.');
    PlaceholderReplace(Strip(raw));
    assert Replace(Replace(Strip(raw), ',', '.'), ',', '.') == Replace(Strip(raw), ',', '.');
  }

  // ---------------------------------------------------------------------------------------------
  // Round trip with the written form of a decimal

  /** A figure spelled from a sign, integer digits, a separator (or none) and fraction digits. */
  function Spell(negative: bool, whole: string, separator: string, fraction: string): string {
    (if negative then "-" else "") + (whole + (separator + fraction))
  }

  /** How a report cell writes `d`: digits with the given decimal separator, a minus if negative. */
  function Render(d: Decimal, point: char): string {
    var digits := PaddedDigits(d.coefficient, d.scale + 1);
    var split := |digits| - d.scale;
    Spell(d.negative, digits[..split], if d.scale > 0 then [point] else [], digits[split..])
  }

  /** Text around a figure that holds none of the characters the parser keeps or converts. */
  predicate IsNoise(s: string) {
    forall i :: 0 <= i < |s| ==> !IsNumeralChar(s[i]) && s[i] != ','
  }

  lemma SpellSign(negative: bool, whole: string, separator: string, fraction: string)
    requires AllDigits(whole) && |whole| + |separator| > 0 && (separator == "." || separator == "")
    ensures var t := Spell(negative, whole, separator, fraction);
      (|t| > 0 && t[0] == '-') == negative &&
      (if negative then t[1..] else t) == whole + (separator + fraction)
  {
    var t := Spell(negative, whole, separator, fraction);
    if !negative && |whole| > 0 {
      assert t[0] == whole[0];
    } else if !negative {
      assert t[0] == '.';
    }
  }

  lemma SpellPoint(whole: string, separator: string, fraction: string)
    requires AllDigits(whole) && (separator == "." || (separator == "" && fraction == []))
    ensures var body := whole + (separator + fraction);
      var point := FirstIndex(body, '.', 0);
      body[..point] == whole &&
      (if point < |body| then body[point + 1..] else []) == fraction
  {
    var body := whole + (separator + fraction);
    forall j | 0 <= j < |whole|
      ensures body[j] != '.'
    {
      assert body[j] == whole[j];
    }
    var point := FirstIndex(body, '.', 0);
    if separator == "." {
      assert body[|whole|] == '.';
      assert point == |whole|;
      assert body[point + 1..] == fraction;
    } else {
      assert body == whole;
    }
  }

  lemma ParseBodyOf(negative: bool, whole: string, separator: string, fraction: string)
    requires AllDigits(whole) && AllDigits(fraction) && |whole| + |fraction| > 0
    requires separator == "." || (separator == "" && fraction == [])
    ensures ParseBody(negative, whole + (separator + fraction))
         == Some(Decimal(negative, DigitsValue(whole + fraction), |fraction|))
  {
    SpellPoint(whole, separator, fraction);
  }

  lemma ParseNumeralOf(negative: bool, whole: string, separator: string, fraction: string)
    requires AllDigits(whole) && AllDigits(fraction) && |whole| + |fraction| > 0
    requires separator == "." || (separator == "" && fraction == [])
    ensures ParseNumeral(Spell(negative, whole, separator, fraction))
         == Some(Decimal(negative, DigitsValue(whole + fraction), |fraction|))
  {
    var t := Spell(negative, whole, separator, fraction);
    SpellSign(negative, whole, separator, fraction);
    assert ParseNumeral(t) == ParseBody(negative, whole + (separator + fraction));
    ParseBodyOf(negative, whole, separator, fraction);
  }

  /** The parts `Render` spells a decimal from. */
  lemma RenderSpelled(d: Decimal, point: char, digits: string, split: nat)
    requires digits == PaddedDigits(d.coefficient, d.scale + 1) && split == |digits| - d.scale
    ensures Render(d, point) == Spell(d.negative, digits[..split], if d.scale > 0 then [point] else "", digits[split..])
    ensures digits[..split] + digits[split..] == digits
  {
  }

  lemma ParseNumeralRender(d: Decimal)
    ensures ParseNumeral(Render(d, '.')) == Some(d)
  {
    var digits := PaddedDigits(d.coefficient, d.scale + 1);
    var split := |digits| - d.scale;
    RenderSpelled(d, '.', digits, split);
    ParseNumeralOf(d.negative, digits[..split], if d.scale > 0 then "." else "", digits[split..]);
    PaddedDigitsValue(d.coefficient, d.scale + 1);
  }

  /** A cell whose text holds a digit is never taken for a placeholder. */
  lemma DigitIsNoPlaceholder(raw: string, p: nat)
    requires p < |raw| && IsDigit(raw[p])
    ensures !IsPlaceholder(Strip(raw))
  {
    var q := StripKeeps(raw, p);
    assert IsDigit(Strip(raw)[q]);
  }

  /** Cleaning text that sits between noise leaves exactly that text, if it is all numeral characters. */
  lemma CleanBetweenNoise(before: string, x: string, after: string)
    requires IsNoise(before) && IsNoise(after)
    requires forall i :: 0 <= i < |x| ==> IsNumeralChar(x[i])
    ensures Clean(before + x + after) == x
  {
    CleanConcat(before + x, after);
    CleanConcat(before, x);
    CleanDropsAll(before);
    CleanDropsAll(after);
    CleanKeepsAll(x);
  }

  /** Turning commas into points inside a spelled figure touches only its separator. */
  lemma SpellReplace(negative: bool, whole: string, separator: string, fraction: string)
    requires AllDigits(whole) && AllDigits(fraction)
    ensures Replace(Spell(negative, whole, separator, fraction), ',', '.')
         == Spell(negative, whole, Replace(separator, ',', '.'), fraction)
  {
    var sign: string := if negative then "-" else "";
    ReplaceConcat(sign, whole + (separator + fraction), ',', '.');
    ReplaceConcat(whole, separator + fraction, ',', '.');
    ReplaceConcat(separator, fraction, ',', '.');
    ReplaceAbsent(sign, ',', '.');
    ReplaceAbsent(whole, ',', '.');
    ReplaceAbsent(fraction, ',', '.');
  }

  /** A figure written with a comma reads, once commas become points, as the same figure written with a point. */
  lemma RenderReplace(d: Decimal, point: char)
    requires point == '.' || point == ','
    ensures Replace(Render(d, point), ',', '.') == Render(d, '.')
  {
    var digits := PaddedDigits(d.coefficient, d.scale + 1);
    var split := |digits| - d.scale;
    var separator: string := if d.scale > 0 then [point] else [];
    assert Replace(separator, ',', '.') == (if d.scale > 0 then "." else "");
    RenderSpelled(d, point, digits, split);
    RenderSpelled(d, '.', digits, split);
    SpellReplace(d.negative, digits[..split], separator, digits[split..]);
  }

  /** A figure written with a point holds numeral characters only. */
  lemma RenderNumeral(d: Decimal)
    ensures forall i :: 0 <= i < |Render(d, '.')| ==> IsNumeralChar(Render(d, '.')[i])
  {
    var digits := PaddedDigits(d.coefficient, d.scale + 1);
    var split := |digits| - d.scale;
    var sign: string := if d.negative then "-" else "";
    var separator: string := if d.scale > 0 then "." else "";
    var whole, fraction := digits[..split], digits[split..];
    var r := Render(d, '.');
    forall i | 0 <= i < |r|
      ensures IsNumeralChar(r[i])
    {
      if i < |sign| {
        assert r[i] == sign[i];
      } else if i < |sign| + |whole| {
        assert r[i] == whole[i - |sign|];
      } else if i < |sign| + |whole| + |separator| {
        assert r[i] == separator[i - |sign| - |whole|];
      } else {
        assert r[i] == fraction[i - |sign| - |whole| - |separator|];
      }
    }
  }

  /** A written figure starts with a digit, right after its minus sign if it has one. */
  lemma RenderLeadingDigit(d: Decimal, point: char)
    ensures IsDigit(Render(d, point)[if d.negative then 1 else 0])
  {
    var digits := PaddedDigits(d.coefficient, d.scale + 1);
    var split := |digits| - d.scale;
    var whole := digits[..split];
    assert whole[0] == digits[0];
  }

  lemma RenderCharacters(d: Decimal, point: char)
    requires point == '.' || point == ','
    ensures var r := Render(d, point);
      Replace(r, ',', '.') == Render(d, '.') &&
      (forall i :: 0 <= i < |Render(d, '.')| ==> IsNumeralChar(Render(d, '.')[i])) &&
      IsDigit(r[if d.negative then 1 else 0])
  {
    RenderReplace(d, point);
    RenderNumeral(d);
    RenderLeadingDigit(d, point);
  }

  /**
   * Whatever noise surrounds it (spaces, unit words such as "млн") and whichever separator it
   * uses, a written decimal is read back as exactly that decimal.
   */
  lemma ParseRendered(d: Decimal, point: char, before: string, after: string)
    requires point == '.' || point == ','
    requires IsNoise(before) && IsNoise(after)
    ensures ParseDecimal(Some(before + Render(d, point) + after)) == Some(d)
  {
    var r := Render(d, point);
    var raw := before + r + after;
    RenderCharacters(d, point);
    assert raw[|before| + if d.negative then 1 else 0] == r[if d.negative then 1 else 0];
    DigitIsNoPlaceholder(raw, |before| + if d.negative then 1 else 0);
    assert Cleaned(raw) == Render(d, '.') by {
      ReplaceConcat(before + r, after, ',', '.');
      ReplaceConcat(before, r, ',', '.');
      ReplaceAbsent(before, ',', '.');
      ReplaceAbsent(after, ',', '.');
      StripReplace(raw, ',', '.');
      CleanIgnoresStrip(Replace(raw, ',', '.'));
      CleanBetweenNoise(before, Render(d, '.'), after);
    }
    ParseNumeralRender(d);
  }

  // ---------------------------------------------------------------------------------------------
  // Report cells as they occur

  /** The steps of `ParseDecimal` on a cell that is no placeholder and keeps some characters. */
  lemma ParseDecimalSteps(raw: string, s: string, t: string)
    requires Strip(raw) == s && !IsPlaceholder(s) && Clean(Replace(s, ',', '.')) == t && t != []
    ensures ParseDecimal(Some(raw)) == ParseNumeral(t)
  {
  }

  /** "81,03" is 81.03, kept as coefficient 8103 at scale 2. */
  lemma ExampleCommaCell()
    ensures ParseDecimal(Some("81,03")) == Some(Decimal(false, 8103, 2))
  {
    var d := Decimal(false, 8103, 2);
    assert NatToDigits(8) == "8";
    assert NatToDigits(81) == "81";
    assert NatToDigits(810) == "810";
    assert NatToDigits(8103) == "8103";
    assert PaddedDigits(8103, 3) == "8103";
    assert Render(d, ',') == "81,03";
    ParseRendered(d, ',', "", "");
    assert "" + "81,03" + "" == "81,03";
  }

  lemma UnitsCellCleaned()
    ensures Clean(Replace("1 234,5 млн", ',', '.')) == "1234.5"
  {
    var p, q, r, u := "1", " ", "234.5", " млн";
    assert Replace("1 234,5 млн", ',', '.') == ((p + q) + r) + u;
    assert Clean(p + q) == p by {
      CleanConcat(p, q);
      CleanKeepsAll(p);
      CleanDropsAll(q);
    }
    assert Clean((p + q) + r) == p + r by {
      CleanConcat(p + q, r);
      CleanKeepsAll(r);
    }
    assert Clean(((p + q) + r) + u) == p + r by {
      CleanConcat((p + q) + r, u);
      CleanDropsAll(u);
    }
  }

  lemma UnitsCellNumeral()
    ensures ParseNumeral("1234.5") == Some(Decimal(false, 12345, 1))
  {
    var d := Decimal(false, 12345, 1);
    assert NatToDigits(1) == "1";
    assert NatToDigits(12) == "12";
    assert NatToDigits(123) == "123";
    assert NatToDigits(1234) == "1234";
    assert NatToDigits(12345) == "12345";
    assert Render(d, '.') == "1234.5";
    ParseNumeralRender(d);
  }

  /** A space between digit groups and a unit word are dropped: "1 234,5 млн" is 1234.5. */
  lemma ExampleUnitsCell()
    ensures ParseDecimal(Some("1 234,5 млн")) == Some(Decimal(false, 12345, 1))
  {
    var raw := "1 234,5 млн";
    StripAt(raw, 0, 11);
    UnitsCellCleaned();
    UnitsCellNumeral();
    ParseDecimalSteps(raw, raw, "1234.5");
  }

  /** Two points in a cleaned leftover make it unreadable. */
  lemma TwoPointsUnreadable(t: string, i: nat, j: nat)
    requires forall x :: 0 <= x < |t| ==> IsNumeralChar(t[x])
    requires i < j < |t| && t[i] == '.' && t[j] == '.'
    ensures ParseNumeral(t) == None
  {
    ParseNumeralDefined(t);
  }

  /** A cell without surrounding space and with no character other than digits, points and commas reads as its dotted form. */
  lemma PlainCellSteps(raw: string, t: string)
    requires Strip(raw) == raw && !IsPlaceholder(raw) && Replace(raw, ',', '.') == t && t != []
    requires forall x :: 0 <= x < |t| ==> IsNumeralChar(t[x])
    ensures ParseDecimal(Some(raw)) == ParseNumeral(t)
  {
    CleanKeepsAll(t);
    ParseDecimalSteps(raw, raw, t);
  }

  /** Two decimal points make the cell unreadable. */
  lemma ExampleTwoPointsCell()
    ensures ParseDecimal(Some("1.2.3")) == None
  {
    var t := "1.2.3";
    StripAt(t, 0, 5);
    assert Replace(t, ',', '.') == t;
    TwoPointsUnreadable(t, 1, 3);
    PlainCellSteps(t, t);
  }

  /** A comma used as a thousands separator becomes a second point, so "1,234.5" is unreadable. */
  lemma ExampleThousandsCommaCell()
    ensures ParseDecimal(Some("1,234.5")) == None
  {
    var raw, t := "1,234.5", "1.234.5";
    StripAt(raw, 0, 7);
    assert Replace(raw, ',', '.') == t;
    TwoPointsUnreadable(t, 1, 5);
    PlainCellSteps(raw, t);
  }

  lemma PlusCellCleaned()
    ensures Clean(Replace("+2.5", ',', '.')) == "2.5"
  {
    assert Replace("+2.5", ',', '.') == "+" + "2.5";
    CleanConcat("+", "2.5");
    CleanDropsAll("+");
    CleanKeepsAll("2.5");
  }

  lemma PlusCellNumeral()
    ensures ParseNumeral("2.5") == Some(Decimal(false, 25, 1))
  {
    var d := Decimal(false, 25, 1);
    assert NatToDigits(2) == "2";
    assert NatToDigits(25) == "25";
    assert Render(d, '.') == "2.5";
    ParseNumeralRender(d);
  }

  /** A plus sign is deleted with the other noise: "+2.5" is 2.5. */
  lemma ExamplePlusSignCell()
    ensures ParseDecimal(Some("+2.5")) == Some(Decimal(false, 25, 1))
  {
    StripAt("+2.5", 0, 4);
    PlusCellCleaned();
    PlusCellNumeral();
    ParseDecimalSteps("+2.5", "+2.5", "2.5");
  }

  /** A lone point is no numeral: it has no digit. */
  lemma ExampleLonePointCell()
    ensures ParseDecimal(Some(".")) == None
  {
    var t := ".";
    StripAt(t, 0, 1);
    assert Replace(t, ',', '.') == t;
    ParseNumeralDefined(t);
    PlainCellSteps(t, t);
  }

  /** A minus between digits is no numeral: "1-2" is unreadable. */
  lemma ExampleInnerMinusCell()
    ensures ParseDecimal(Some("1-2")) == None
  {
    var t := "1-2";
    StripAt(t, 0, 3);
    assert Replace(t, ',', '.') == t;
    ParseNumeralDefined(t);
    assert t[1] == '-';
    PlainCellSteps(t, t);
  }
}

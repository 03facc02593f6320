/**
 * The table searches of the report parser: the column headed "1 кунда ишлаб чиқарилган электр
 * энергия, млн.кВт.соат" (`PDFParser._find_target_column_index`), the company summary row and its
 * total (`PDFParser._find_total_energy`), and the fallback scan of that row for a plausible
 * figure (`PDFParser._extract_energy_from_row`).
 */
module TableSearch {
  import opened Wrappers
  import opened Text
  import opened DomainModels
  import opened Exceptions
  import opened DecimalParser

  /** A table row as the PDF decoder yields it: its cells, left to right. */
  type Row = seq<Cell>

  /** A table: its rows, top to bottom. */
  type Table = seq<Row>

  /** All rows of all tables: table after table, each top to bottom (the order of the nested loops). */
  function Rows(tables: seq<Table>): seq<Row> {
    if tables == [] then [] else Rows(tables[..|tables| - 1]) + tables[|tables| - 1]
  }

  /** `table[:5]`: the rows a header is looked for in. */
  function Head(table: Table): (h: Table)
    ensures |h| <= 5 && h <= table
    ensures |table| >= 5 ==> |h| == 5
    ensures |table| < 5 ==> h == table
  {
    if |table| <= 5 then table else table[..5]
  }

  function Heads(tables: seq<Table>): (h: seq<Table>)
    ensures |h| == |tables| && forall i :: 0 <= i < |tables| ==> h[i] == Head(tables[i])
  {
    seq(|tables|, i requires 0 <= i < |tables| => Head(tables[i]))
  }

  const NormalKeywords: seq<string> := ["1 кунда", "ишлаб"]

  /** The same header as it comes out of a page decoded right to left ("балш" is in "балши"). */
  const ReversedKeywords: seq<string> := ["аднук 1", "балш"]

  const SummaryKeywords: seq<string> := ["Ўзбекгидроэнерго", "АЖ", "бўйича"]

  /** `all(k in s for k in keywords)`. */
  predicate ContainsAll(s: string, keywords: seq<string>) {
    forall k :: 0 <= k < |keywords| ==> Contains(s, keywords[k])
  }

  /** What a header cell is compared on: line breaks read as spaces, then stripped. */
  function HeaderText(s: string): string {
    Strip(Replace(s, '\n', ' '))
  }

  /** A cell naming the daily-production column, read normally or reversed; empty cells are skipped. */
  predicate IsHeaderCell(cell: Cell) {
    cell.Some? && cell.value != [] &&
    (ContainsAll(HeaderText(cell.value), NormalKeywords) || ContainsAll(HeaderText(cell.value), ReversedKeywords))
  }

  /** `c` is the first header cell of `row`. */
  predicate FirstHeaderIn(row: Row, c: nat) {
    c < |row| && IsHeaderCell(row[c]) && forall c' :: 0 <= c' < c ==> !IsHeaderCell(row[c'])
  }

  /** The first header cell of `row` at or after `from`, scanning left to right. */
  function FirstHeaderCell(row: Row, from: nat): (r: Option<nat>)
    requires from <= |row|
    ensures r.Some? ==> from <= r.value < |row| && IsHeaderCell(row[r.value])
    ensures forall c :: from <= c < (if r.Some? then r.value else |row|) ==> !IsHeaderCell(row[c])
    decreases |row| - from
  {
    if from == |row| then None
    else if IsHeaderCell(row[from]) then Some(from)
    else FirstHeaderCell(row, from + 1)
  }

  /** No cell of `row` is a header cell. */
  predicate NoHeaderIn(row: Row) {
    forall c :: 0 <= c < |row| ==> !IsHeaderCell(row[c])
  }

  /** The column of the first header cell in `rows[from..]`, rows in order, cells left to right. */
  function FirstHeaderColumn(rows: seq<Row>, from: nat): Option<nat>
    requires from <= |rows|
    decreases |rows| - from
  {
    if from == |rows| then None
    else
      match FirstHeaderCell(rows[from], 0)
      case Some(c) => Some(c)
      case None => FirstHeaderColumn(rows, from + 1)
  }

  /** `PDFParser._find_target_column_index`. */
  function FindTargetColumnIndex(tables: seq<Table>): Option<nat> {
    FirstHeaderColumn(Rows(Heads(tables)), 0)
  }

  /** The first cell of a row, as the summary test reads it (an absent cell reads as ""). */
  predicate IsSummaryRow(row: Row) {
    |row| > 0 && ContainsAll(row[0].GetOr(""), SummaryKeywords)
  }

  /** The first summary row in `rows[from..]`. */
  function FirstSummaryRow(rows: seq<Row>, from: nat): (r: Option<nat>)
    requires from <= |rows|
    ensures r.Some? ==> from <= r.value < |rows| && IsSummaryRow(rows[r.value])
    ensures forall k :: from <= k < (if r.Some? then r.value else |rows|) ==> !IsSummaryRow(rows[k])
    decreases |rows| - from
  {
    if from == |rows| then None
    else if IsSummaryRow(rows[from]) then Some(from)
    else FirstSummaryRow(rows, from + 1)
  }

  /**
   * The range test of the fallback scan: `abs(v)`, rounded by the default context, between 0.01
   * and 1000 and then between 10 and 200. The inner range decides alone, and for a figure of at
   * most 28 digits it is a test of the exact magnitude.
   */
  function IsPlausibleEnergy(v: Decimal): (b: bool)
    ensures b <==> 10.0 <= ContextAbs(v) <= 200.0
    ensures NumDigits(v.coefficient) <= Precision ==> (b <==> 10.0 <= Abs(v) <= 200.0)
  {
    0.01 <= ContextAbs(v) <= 1000.0 && 10.0 <= ContextAbs(v) <= 200.0
  }

  /** A cell the fallback scan accepts. */
  predicate IsPlausibleCell(cell: Cell) {
    ParseDecimal(cell).Some? && IsPlausibleEnergy(ParseDecimal(cell).value)
  }

  function FirstPlausible(row: Row, from: nat): (r: Option<nat>)
    requires from <= |row|
    ensures r.Some? ==> from <= r.value < |row| && IsPlausibleCell(row[r.value])
    ensures forall i :: from <= i < (if r.Some? then r.value else |row|) ==> !IsPlausibleCell(row[i])
    decreases |row| - from
  {
    if from == |row| then None
    else if IsPlausibleCell(row[from]) then Some(from)
    else FirstPlausible(row, from + 1)
  }

  /** `PDFParser._extract_energy_from_row`. */
  function ExtractEnergyFromRow(row: Row): Result<Decimal, ParserError> {
    match FirstPlausible(row, 0)
    case Some(i) => Success(ParseDecimal(row[i]).value)
    case None => Failure(DataExtractionError(NoEnergyValue(row)))
  }

  /** The total read from the summary row: the header column if it holds a number, else the fallback scan. */
  function EnergyFromSummaryRow(row: Row, target: Option<nat>): Result<Decimal, ParserError> {
    if target.Some? && target.value < |row| && ParseDecimal(row[target.value]).Some?
    then Success(ParseDecimal(row[target.value]).value)
    else ExtractEnergyFromRow(row)
  }

  /** `PDFParser._find_total_energy`. */
  function FindTotalEnergy(tables: seq<Table>): Result<Decimal, ParserError> {
    var rows := Rows(tables);
    match FirstSummaryRow(rows, 0)
    case None => Failure(DataExtractionError(SummaryRowNotFound))
    case Some(k) => EnergyFromSummaryRow(rows[k], FindTargetColumnIndex(tables))
  }

  // ---------------------------------------------------------------------------------------------
  // The rows of a list of tables

  lemma {:induction false} RowsConcat(a: seq<Table>, b: seq<Table>)
    ensures Rows(a + b) == Rows(a) + Rows(b)
    decreases |b|
  {
    if b == [] {
      assert a + b == a;
    } else {
      assert (a + b)[..|a + b| - 1] == a + b[..|b| - 1];
      RowsConcat(a, b[..|b| - 1]);
    }
  }

  /** The rows of a list of tables are exactly the rows of its tables. */
  lemma {:induction false} RowsMembers(tables: seq<Table>)
    ensures forall t, r :: 0 <= t < |tables| && 0 <= r < |tables[t]| ==> tables[t][r] in Rows(tables)
    ensures forall row :: row in Rows(tables) ==>
      exists t, r :: 0 <= t < |tables| && 0 <= r < |tables[t]| && row == tables[t][r]
  {
    if tables != [] {
      var init := tables[..|tables| - 1];
      RowsMembers(init);
      forall t, r | 0 <= t < |tables| && 0 <= r < |tables[t]|
        ensures tables[t][r] in Rows(tables)
      {
        if t < |init| {
          assert tables[t] == init[t];
        }
      }
    }
  }

  /** The rows of the first `t` tables come first among the rows of all of them. */
  lemma {:induction false} RowsPrefix(tables: seq<Table>, t: nat)
    requires t <= |tables|
    ensures Rows(tables[..t]) <= Rows(tables)
    decreases |tables| - t
  {
    if t == |tables| {
      assert tables[..t] == tables;
    } else {
      RowsPrefix(tables, t + 1);
      assert tables[..t + 1][..t] == tables[..t];
    }
  }

  /** Row `r` of table `t` sits after the rows of the tables before it. */
  lemma RowsElement(tables: seq<Table>, t: nat, r: nat)
    requires t < |tables| && r < |tables[t]|
    ensures |Rows(tables[..t])| + r < |Rows(tables)|
    ensures Rows(tables)[|Rows(tables[..t])| + r] == tables[t][r]
  {
    RowsPrefix(tables, t + 1);
    assert tables[..t + 1][..t] == tables[..t];
  }

  /** The rows of an earlier table all come before those of a later one. */
  lemma RowsBefore(tables: seq<Table>, t': nat, t: nat)
    requires t' < t <= |tables|
    ensures |Rows(tables[..t'])| + |tables[t']| <= |Rows(tables[..t])|
  {
    RowsPrefix(tables[..t], t' + 1);
    assert tables[..t][..t' + 1] == tables[..t' + 1];
    assert tables[..t' + 1][..t'] == tables[..t'];
  }

  /** Every position among the rows is some row `r` of some table `t`. */
  lemma {:induction false} RowsPosition(tables: seq<Table>, k: nat) returns (t: nat, r: nat)
    requires k < |Rows(tables)|
    ensures t < |tables| && r < |tables[t]| && k == |Rows(tables[..t])| + r
  {
    var init := tables[..|tables| - 1];
    if k < |Rows(init)| {
      t, r := RowsPosition(init, k);
      assert init[..t] == tables[..t];
    } else {
      t, r := |tables| - 1, k - |Rows(init)|;
    }
  }

  // ---------------------------------------------------------------------------------------------
  // The header search

  /** Row `k` is the first of `rows[from..]` holding a header cell, and its first one is in column `c`. */
  predicate HeaderRowAt(rows: seq<Row>, from: nat, k: nat, c: nat) {
    from <= k < |rows| && FirstHeaderIn(rows[k], c) && forall k' :: from <= k' < k ==> NoHeaderIn(rows[k'])
  }

  /** The column found is that of the first header cell of the first row holding one... */
  lemma {:induction false} FirstHeaderColumnFound(rows: seq<Row>, from: nat) returns (k: nat)
    requires from <= |rows| && FirstHeaderColumn(rows, from).Some?
    ensures HeaderRowAt(rows, from, k, FirstHeaderColumn(rows, from).value)
    decreases |rows| - from
  {
    match FirstHeaderCell(rows[from], 0)
    case Some(c) =>
      assert FirstHeaderIn(rows[from], c);
      k := from;
    case None =>
      assert NoHeaderIn(rows[from]);
      k := FirstHeaderColumnFound(rows, from + 1);
  }

  /** ... and none is found exactly when no row holds a header cell. */
  lemma {:induction false} FirstHeaderColumnNone(rows: seq<Row>, from: nat)
    requires from <= |rows|
    ensures FirstHeaderColumn(rows, from).None? <==> forall k :: from <= k < |rows| ==> NoHeaderIn(rows[k])
    decreases |rows| - from
  {
    if from < |rows| {
      match FirstHeaderCell(rows[from], 0)
      case Some(c) =>
        assert IsHeaderCell(rows[from][c]);
      case None =>
        assert NoHeaderIn(rows[from]);
        FirstHeaderColumnNone(rows, from + 1);
    }
  }

  /**
   * Row `r` of table `t` is the first row, among the first five of every table in order, that
   * holds a header cell, and its first header cell is in column `c`.
   */
  predicate FirstHeaderRowOf(tables: seq<Table>, t: nat, r: nat, c: nat) {
    t < |tables| && r < |tables[t]| && r < 5 && FirstHeaderIn(tables[t][r], c) &&
    (forall t', r' :: 0 <= t' < t && 0 <= r' < |tables[t']| && r' < 5 ==> NoHeaderIn(tables[t'][r'])) &&
    (forall r' :: 0 <= r' < r ==> NoHeaderIn(tables[t][r']))
  }

  /**
   * `PDFParser._find_target_column_index` finds a column only where some table has a header cell
   * in that column of one of its first five rows, the first header cell of the first such row:
   * no earlier table has a header cell in its first five rows, and no earlier row of that table.
   */
  lemma FindTargetColumnIndexFound(tables: seq<Table>)
    ensures FindTargetColumnIndex(tables).Some? ==>
      exists t, r :: FirstHeaderRowOf(tables, t, r, FindTargetColumnIndex(tables).value)
  {
    var heads := Heads(tables);
    var rows := Rows(heads);
    if FindTargetColumnIndex(tables).Some? {
      var k := FirstHeaderColumnFound(rows, 0);
      var t, r := RowsPosition(heads, k);
      FirstHeaderRowAt(tables, k, t, r);
    }
  }

  /** The position the header search stops at, read back as a table and a row. */
  lemma FirstHeaderRowAt(tables: seq<Table>, k: nat, t: nat, r: nat)
    requires t < |tables| && r < |Heads(tables)[t]| && k == |Rows(Heads(tables)[..t])| + r
    requires FirstHeaderColumn(Rows(Heads(tables)), 0).Some?
    requires HeaderRowAt(Rows(Heads(tables)), 0, k, FirstHeaderColumn(Rows(Heads(tables)), 0).value)
    ensures FirstHeaderRowOf(tables, t, r, FirstHeaderColumn(Rows(Heads(tables)), 0).value)
  {
    var heads := Heads(tables);
    RowsElement(heads, t, r);
    assert heads[t][r] == tables[t][r];
    forall t', r' | 0 <= t' < t && 0 <= r' < |tables[t']| && r' < 5
      ensures NoHeaderIn(tables[t'][r'])
    {
      RowsElement(heads, t', r');
      RowsBefore(heads, t', t);
      assert heads[t'][r'] == tables[t'][r'];
    }
    forall r' | 0 <= r' < r
      ensures NoHeaderIn(tables[t][r'])
    {
      RowsElement(heads, t, r');
      assert heads[t][r'] == tables[t][r'];
    }
  }

  /** ... and finds none exactly when no table has one there. */
  lemma FindTargetColumnIndexNone(tables: seq<Table>)
    ensures FindTargetColumnIndex(tables).None? <==>
      forall t, r :: 0 <= t < |tables| && 0 <= r < |tables[t]| && r < 5 ==> NoHeaderIn(tables[t][r])
  {
    var heads := Heads(tables);
    var rows := Rows(heads);
    FirstHeaderColumnNone(rows, 0);
    RowsMembers(heads);
    if FindTargetColumnIndex(tables).None? {
      forall t, r | 0 <= t < |tables| && 0 <= r < |tables[t]| && r < 5
        ensures NoHeaderIn(tables[t][r])
      {
        assert heads[t][r] == tables[t][r];
        assert heads[t][r] in rows;
      }
    }
    if forall t, r :: 0 <= t < |tables| && 0 <= r < |tables[t]| && r < 5 ==> NoHeaderIn(tables[t][r]) {
      forall k | 0 <= k < |rows|
        ensures NoHeaderIn(rows[k])
      {
        assert rows[k] in rows;
        var t, r :| 0 <= t < |heads| && 0 <= r < |heads[t]| && rows[k] == heads[t][r];
        assert heads[t][r] == tables[t][r];
      }
    }
  }

  /** Rows below the fifth of a table never affect which column is the target. */
  lemma FindTargetIgnoresLowerRows(tables: seq<Table>, i: nat, more: seq<Row>)
    requires i < |tables| && |tables[i]| >= 5
    ensures FindTargetColumnIndex(tables[i := tables[i] + more]) == FindTargetColumnIndex(tables)
  {
    var longer := tables[i := tables[i] + more];
    assert Head(tables[i] + more) == Head(tables[i]) by {
      if |tables[i] + more| > 5 {
        assert (tables[i] + more)[..5] == tables[i][..5];
      }
    }
    assert forall j :: 0 <= j < |tables| ==> Head(longer[j]) == Head(tables[j]);
    assert Heads(longer) == Heads(tables);
  }

  lemma ReverseKeywords()
    ensures Reverse("1 кунда") == "аднук 1" && Reverse("ишлаб") == "балши"
  {
  }

  /** The text a header cell is compared on commutes with reversal. */
  lemma HeaderTextReverse(s: string)
    ensures HeaderText(Reverse(s)) == Reverse(HeaderText(s))
  {
    ReplaceReverse(s, '\n', ' ');
    StripReverse(Replace(s, '\n', ' '));
  }

  /**
   * A header cell decoded right to left is still recognised: the reversed keywords are found in
   * the reversal of any text holding the normal ones.
   */
  lemma ReversedHeaderRecognised(s: string)
    requires ContainsAll(HeaderText(s), NormalKeywords)
    ensures IsHeaderCell(Some(Reverse(s)))
  {
    var h := HeaderText(s);
    HeaderTextReverse(s);
    ReverseKeywords();
    assert Contains(h, NormalKeywords[0]) && Contains(h, NormalKeywords[1]);
    ContainsReverse(h, "1 кунда");
    ContainsReverse(h, "ишлаб");
    ContainsAt("балши", "балш", 0);
    ContainsTransitive(Reverse(h), "балши", "балш");
    assert ContainsAll(HeaderText(Reverse(s)), ReversedKeywords);
    var i :| 0 <= i <= |h| && OccursAt(h, "1 кунда", i);
    assert |Reverse(s)| > 0 by {
      assert |h| > 0;
    }
  }

  // ---------------------------------------------------------------------------------------------
  // The total

  /**
   * The fallback scan returns the first cell value between 10 and 200 in absolute value, sign
   * kept; when there is none it fails with the row itself.
   */
  lemma ExtractEnergyFromRowResult(row: Row)
    ensures ExtractEnergyFromRow(row).Success? ==>
      exists i :: 0 <= i < |row| && ParseDecimal(row[i]) == Some(ExtractEnergyFromRow(row).value) &&
        10.0 <= ContextAbs(ExtractEnergyFromRow(row).value) <= 200.0 &&
        forall j :: 0 <= j < i ==> !IsPlausibleCell(row[j])
    ensures ExtractEnergyFromRow(row).Failure? <==> forall i :: 0 <= i < |row| ==> !IsPlausibleCell(row[i])
    ensures ExtractEnergyFromRow(row).Failure? ==> ExtractEnergyFromRow(row).error == DataExtractionError(NoEnergyValue(row))
  {
    match FirstPlausible(row, 0)
    case Some(i) =>
      assert IsPlausibleCell(row[i]);
    case None =>
  }

  /** `k` is the first summary row of `rows`. */
  predicate FirstSummaryAt(rows: seq<Row>, k: nat) {
    k < |rows| && IsSummaryRow(rows[k]) && forall j :: 0 <= j < k ==> !IsSummaryRow(rows[j])
  }

  /**
   * `v` is the total `row` yields: the header column's number when the header was found, the row
   * reaches that column and the cell holds a number (whatever its size); otherwise the figure the
   * fallback scan picks.
   */
  predicate TotalFromRow(row: Row, target: Option<nat>, v: Decimal) {
    if target.Some? && target.value < |row| && ParseDecimal(row[target.value]).Some?
    then ParseDecimal(row[target.value]) == Some(v)
    else ExtractEnergyFromRow(row) == Success(v)
  }

  /** The total comes from the first summary row of the first table holding one. */
  lemma FindTotalEnergyFound(tables: seq<Table>)
    ensures FindTotalEnergy(tables).Success? ==>
      exists k: nat :: FirstSummaryAt(Rows(tables), k) &&
        TotalFromRow(Rows(tables)[k], FindTargetColumnIndex(tables), FindTotalEnergy(tables).value)
  {
    var rows, target := Rows(tables), FindTargetColumnIndex(tables);
    match FirstSummaryRow(rows, 0)
    case Some(k) =>
      assert FirstSummaryAt(rows, k);
      var row := rows[k];
      var result := FindTotalEnergy(tables);
      assert result == EnergyFromSummaryRow(row, target);
      if result.Success? {
        assert TotalFromRow(row, target, result.value);
      }
    case None =>
  }

  /**
   * Once a summary row is found the total is what that row yields, its failure included: the
   * header column's number, or the fallback scan with its `NoEnergyValue(row)` error.
   */
  lemma FindTotalEnergyFirstRow(tables: seq<Table>, k: nat)
    requires FirstSummaryAt(Rows(tables), k)
    ensures FindTotalEnergy(tables) == EnergyFromSummaryRow(Rows(tables)[k], FindTargetColumnIndex(tables))
  {
    var rows := Rows(tables);
    assert FirstSummaryRow(rows, 0) == Some(k);
  }

  /** Once a summary row is found, the search never reports a missing summary row. */
  lemma EnergyFromSummaryRowFound(row: Row, target: Option<nat>)
    ensures EnergyFromSummaryRow(row, target) != Failure(DataExtractionError(SummaryRowNotFound))
  {
    ExtractEnergyFromRowResult(row);
  }

  /** Without a summary row in any table the search fails with that reason, and it fails with no other. */
  lemma FindTotalEnergyNotFound(tables: seq<Table>)
    ensures FindTotalEnergy(tables) == Failure(DataExtractionError(SummaryRowNotFound)) <==>
      forall t, r :: 0 <= t < |tables| && 0 <= r < |tables[t]| ==> !IsSummaryRow(tables[t][r])
  {
    var rows := Rows(tables);
    RowsMembers(tables);
    match FirstSummaryRow(rows, 0)
    case Some(k) =>
      EnergyFromSummaryRowFound(rows[k], FindTargetColumnIndex(tables));
      assert rows[k] in rows;
      var t, r :| 0 <= t < |tables| && 0 <= r < |tables[t]| && rows[k] == tables[t][r];
    case None =>
      forall t, r | 0 <= t < |tables| && 0 <= r < |tables[t]|
        ensures !IsSummaryRow(tables[t][r])
      {
        assert tables[t][r] in rows;
      }
  }

  // ---------------------------------------------------------------------------------------------
  // The rounding of `abs` at the edges of the range

  lemma LargePowers()
    ensures Pow10(29) == 100000000000000000000000000000
    ensures Pow10(30) == 1000000000000000000000000000000
    ensures Pow10(31) == 10000000000000000000000000000000
    ensures Pow10(32) == 100000000000000000000000000000000
  {
    assert Pow10(4) == 10000;
    Pow10Add(4, 4);
    Pow10Add(8, 8);
    Pow10Add(16, 8);
    Pow10Add(24, 4);
    assert Pow10(29) == 10 * Pow10(28);
    assert Pow10(30) == 10 * Pow10(29);
    assert Pow10(31) == 10 * Pow10(30);
    assert Pow10(32) == 10 * Pow10(31);
  }

  /** 200.00000000000000000000000000001 exceeds 200, yet `abs` rounds it to 200: it is accepted. */
  lemma RoundedDownIntoRange()
    ensures var v := Decimal(false, 20000000000000000000000000000001, 29);
      Abs(v) > 200.0 && IsPlausibleEnergy(v)
  {
    var v := Decimal(false, 20000000000000000000000000000001, 29);
    LargePowers();
    NumDigitsOf(v.coefficient, 32);
    assert Excess(v) == 4;
    assert RoundHalfEven(v.coefficient, 4) == 2000000000000000000000000000;
    assert RoundedCoefficient(v) == 20000000000000000000000000000000;
  }

  /** 9.99999999999999999999999999999 is below 10, yet `abs` rounds it to 10: it is accepted. */
  lemma RoundedUpIntoRange()
    ensures var v := Decimal(false, 999999999999999999999999999999, 29);
      Abs(v) < 10.0 && IsPlausibleEnergy(v)
  {
    var v := Decimal(false, 999999999999999999999999999999, 29);
    LargePowers();
    NumDigitsOf(v.coefficient, 30);
    assert Excess(v) == 2;
    assert RoundHalfEven(v.coefficient, 2) == 10000000000000000000000000000;
    assert RoundedCoefficient(v) == 1000000000000000000000000000000;
  }
}

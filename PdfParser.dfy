/**
 * `PDFParser.parse_pdf` and `PDFParser.to_parsed_data`: the date from the first page, the tables of
 * all pages in page order, the total from those tables, and the simplified payload sent on.
 *
 * The PDF library is replaced by its result: a document is the list of its decoded pages, or
 * `None` when opening or decoding the file raised.
 */
module PdfParser {
  import opened Wrappers
  import opened Text
  import opened DomainModels
  import opened Exceptions
  import opened DecimalParser
  import opened DateExtractor
  import opened TableSearch

  /** One decoded page: the text the decoder extracts (`None` when it finds none) and its tables. */
  datatype Page = Page(text: Option<string>, tables: seq<Table>)

  /** A decoded document, or `None` when the PDF library raised while opening or reading it. */
  type Document = Option<seq<Page>>

  /** The tables of all pages, page after page. */
  function AllTables(pages: seq<Page>): seq<Table> {
    if pages == [] then [] else AllTables(pages[..|pages| - 1]) + pages[|pages| - 1].tables
  }

  /** `PDFParser._extract_stations`: station extraction is not implemented and yields no station. */
  function ExtractStations(tables: seq<Table>): (stations: seq<StationData>)
    ensures |stations| == 0
  {
    []
  }

  /** `PDFParser.parse_pdf`, as a function of the decoded document. */
  function ParseDocument(document: Document): Result<HydropowerReport, ParserError> {
    match document
    case None => Failure(PDFParsingError(DocumentUnreadable))
    case Some(pages) =>
      if pages == [] then Failure(PDFParsingError(NoPages))
      else
        match ExtractDate(pages[0].text)
        case Failure(e) => Failure(e)
        case Success(date) =>
          var tables := AllTables(pages);
          match FindTotalEnergy(tables)
          case Failure(e) => Failure(e)
          case Success(total) => Success(HydropowerReport(date, total, ExtractStations(tables)))
  }

  /**
   * `PDFParser.parse_pdf`: the date is read first, then the tables are collected page by page,
   * then the total is looked up in them.
   */
  method ParsePdf(document: Document) returns (r: Result<HydropowerReport, ParserError>)
    ensures r == ParseDocument(document)
  {
    if document.None? {
      return Failure(PDFParsingError(DocumentUnreadable));
    }
    var pages := document.value;
    if |pages| == 0 {
      return Failure(PDFParsingError(NoPages));
    }
    var date := ExtractDate(pages[0].text);
    if date.Failure? {
      return Failure(date.error);
    }
    var tables: seq<Table> := [];
    var i := 0;
    while i < |pages|
      invariant 0 <= i <= |pages|
      invariant tables == AllTables(pages[..i])
    {
      assert pages[..i + 1][..i] == pages[..i];
      tables := tables + pages[i].tables;
      i := i + 1;
    }
    assert pages[..i] == pages;
    var total := FindTotalEnergy(tables);
    if total.Failure? {
      return Failure(total.error);
    }
    var stations := ExtractStations(tables);
    r := Success(HydropowerReport(date.value, total.value, stations));
  }

  /** `PDFParser.to_parsed_data`: the date and the total, renamed. */
  function ToParsedData(report: HydropowerReport): (data: ParsedData)
    ensures data.reportDate == report.reportDate
    ensures data.totalEnergyProduction == report.totalDailyEnergyMillionKwh
  {
    ParsedData(report.reportDate, report.totalDailyEnergyMillionKwh)
  }

  // ---------------------------------------------------------------------------------------------
  // Properties of the composition

  lemma {:induction false} AllTablesConcat(a: seq<Page>, b: seq<Page>)
    ensures AllTables(a + b) == AllTables(a) + AllTables(b)
    decreases |b|
  {
    if b == [] {
      assert a + b == a;
    } else {
      assert (a + b)[..|a + b| - 1] == a + b[..|b| - 1];
      AllTablesConcat(a, b[..|b| - 1]);
    }
  }

  /** Only the tables of the pages are collected: pages with the same tables give the same list. */
  lemma {:induction false} AllTablesOnlyTables(a: seq<Page>, b: seq<Page>)
    requires |a| == |b| && forall i :: 0 <= i < |a| ==> a[i].tables == b[i].tables
    ensures AllTables(a) == AllTables(b)
    decreases |a|
  {
    if a != [] {
      AllTablesOnlyTables(a[..|a| - 1], b[..|b| - 1]);
    }
  }

  /**
   * Every outcome of `parse_pdf`: an unreadable document or one without pages is a parsing
   * error; otherwise the date failure comes first, then the total's; a report holds the date of
   * the first page, the total of all tables and no station.
   */
  lemma ParseDocumentOutcome(document: Document)
    ensures document.None? ==> ParseDocument(document) == Failure(PDFParsingError(DocumentUnreadable))
    ensures document == Some([]) ==> ParseDocument(document) == Failure(PDFParsingError(NoPages))
    ensures document.Some? && document.value != [] ==>
      var pages := document.value;
      var date, total := ExtractDate(pages[0].text), FindTotalEnergy(AllTables(pages));
      (date.Failure? ==> ParseDocument(document) == Failure(date.error)) &&
      (date.Success? && total.Failure? ==> ParseDocument(document) == Failure(total.error)) &&
      (ParseDocument(document).Success? <==> date.Success? && total.Success?) &&
      (ParseDocument(document).Success? ==>
        ParseDocument(document).value == HydropowerReport(date.value, total.value, []))
    ensures ParseDocument(document).Failure? && ParseDocument(document).error.PDFParsingError? ==>
      document.None? || document == Some([])
  {
  }

  /** Only the first page's text is read: the text of any later page never matters. */
  lemma LaterTextIgnored(pages: seq<Page>, i: nat, text: Option<string>)
    requires 1 <= i < |pages|
    ensures ParseDocument(Some(pages[i := pages[i].(text := text)])) == ParseDocument(Some(pages))
  {
    var changed := pages[i := pages[i].(text := text)];
    AllTablesOnlyTables(changed, pages);
  }

  /** Tables are gathered in page order: the pages of a document split anywhere give its tables in two runs. */
  lemma TablesInPageOrder(pages: seq<Page>, k: nat)
    requires k <= |pages|
    ensures AllTables(pages) == AllTables(pages[..k]) + AllTables(pages[k..])
  {
    assert pages[..k] + pages[k..] == pages;
    AllTablesConcat(pages[..k], pages[k..]);
  }

  /** The payload sent on holds what the report holds, for every successfully parsed document. */
  lemma ParsedDataOfDocument(document: Document)
    requires ParseDocument(document).Success?
    ensures var data := ToParsedData(ParseDocument(document).value);
      data.reportDate == ExtractDate(document.value[0].text).value &&
      data.totalEnergyProduction == FindTotalEnergy(AllTables(document.value)).value &&
      ValidDate(data.reportDate)
  {
    ExtractDateLeftmost(document.value[0].text.value);
  }

  // ---------------------------------------------------------------------------------------------
  // A one-page report

  const HeaderRow: Row := [None, Some("1 кунда ишлаб")]
  const SummaryRow: Row := [Some("Ўзбекгидроэнерго АЖ бўйича"), Some("81,03")]
  const ReportTable: Table := [HeaderRow, SummaryRow]

  lemma HeaderCellText()
    ensures HeaderText("1 кунда ишлаб") == "1 кунда ишлаб"
  {
    var s := "1 кунда ишлаб";
    assert Replace(s, '\n', ' ') == s;
    StripAt(s, 0, |s|);
    assert s[0..|s|] == s;
  }

  lemma HeaderCellKeywords()
    ensures ContainsAll("1 кунда ишлаб", NormalKeywords)
  {
    var s := "1 кунда ишлаб";
    ContainsAt(s, "1 кунда", 0);
    ContainsAt(s, "ишлаб", 8);
  }

  lemma HeaderRowFound()
    ensures FirstHeaderCell(HeaderRow, 0) == Some(1)
  {
    HeaderCellText();
    HeaderCellKeywords();
    assert IsHeaderCell(HeaderRow[1]);
  }

  lemma SummaryRowFound()
    ensures IsSummaryRow(SummaryRow) && !IsSummaryRow(HeaderRow)
  {
    var s := "Ўзбекгидроэнерго АЖ бўйича";
    ContainsAt(s, "Ўзбекгидроэнерго", 0);
    ContainsAt(s, "АЖ", 17);
    ContainsAt(s, "бўйича", 20);
    assert ContainsAll(SummaryRow[0].GetOr(""), SummaryKeywords);
    assert !Contains("", SummaryKeywords[0]);
  }

  lemma ReportTableRows()
    ensures Rows([ReportTable]) == ReportTable && Rows(Heads([ReportTable])) == ReportTable
  {
    assert [ReportTable][..0] == [];
    assert Heads([ReportTable]) == [ReportTable];
  }

  /** The header names column 1... */
  lemma ReportTableTarget()
    ensures FindTargetColumnIndex([ReportTable]) == Some(1)
  {
    ReportTableRows();
    HeaderRowFound();
    assert FirstHeaderColumn(ReportTable, 0) == Some(1);
  }

  /** ... and the summary row holds "81,03" there. */
  lemma ReportTableTotal()
    ensures FindTotalEnergy([ReportTable]) == Success(Decimal(false, 8103, 2))
  {
    ReportTableRows();
    ReportTableTarget();
    SummaryRowFound();
    assert FirstSummaryRow(ReportTable, 0) == Some(1);
    ExampleCommaCell();
    assert EnergyFromSummaryRow(SummaryRow, Some(1)) == Success(Decimal(false, 8103, 2));
  }

  /** A page dated "8.01.2026 й." whose table gives 81,03 is the report of 8 January 2026 with total 81.03. */
  lemma ExampleOnePageReport()
    ensures ParseDocument(Some([Page(Some("8.01.2026 й."), [ReportTable])])) ==
      Success(HydropowerReport(Date(2026, 1, 8), Decimal(false, 8103, 2), []))
  {
    var pages := [Page(Some("8.01.2026 й."), [ReportTable])];
    assert AllTables(pages) == [ReportTable] by {
      assert pages[..0] == [];
    }
    ExampleReportDate();
    ReportTableTotal();
  }
}

/**
 * The failures the report parser raises (utils/exceptions.py). Each Python exception class
 * becomes a constructor; the message text is replaced by the structured cause it describes.
 */
module Exceptions {
  import opened Wrappers

  /** Why the document could not be read at all. */
  datatype DecodeFailure =
    | DocumentUnreadable   // the PDF library raised while opening or decoding the file
    | NoPages              // `pdf.pages[0]` raised: the document has no first page

  /** Why the required data could not be found in a readable document. */
  datatype ExtractionFailure =
    | NoPageText                                         // "No text found in PDF page"
    | DatePatternNotFound                                // "Date pattern not found in PDF"
    | InvalidDateValues(day: nat, month: nat, year: nat)  // `datetime(...)` raised ValueError
    | SummaryRowNotFound                                 // no row carries all summary keywords
    | NoEnergyValue(row: seq<Option<string>>)            // fallback scan found nothing; carries the row

  datatype ParserError =
    | PDFParsingError(cause: DecodeFailure)
    | DataExtractionError(failure: ExtractionFailure)
}

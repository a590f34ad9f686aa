/** What the Streamlit converter's download tab offers for one answer: the
    answer as a text file, always; and, beside it, either a spreadsheet of the
    reconstructed table or exactly one explanatory notice. */
module Downloads {
  import opened Wrappers
  import opened Text
  import opened TableReconstruct

  const TextMime: string := "text/plain"
  const SheetMime: string := "application/vnd.openxmlformats-officedocument.spreadsheetml.sheet"
  const TextSuffix: string := "_converted.txt"
  const SheetSuffix: string := "_converted.xlsx"

  /** What a download button carries: the answer itself, or the workbook
      written from a frame with these columns and rows. */
  datatype Payload = AnswerText(text: string) | Workbook(columns: Row, rows: seq<Row>)

  datatype Download = Download(fileName: string, mime: string, payload: Payload)

  /** The three notices the second column can show instead of a spreadsheet. */
  datatype Notice =
    | NotStandardTableNotice   // a delimiter was found, but fewer than two rows survived
    | NotTableFormatNotice     // the first line holds no delimiter
    | ManualFormatNotice       // building or writing the frame raised
  {
    function Message(): string {
      match this
      case NotStandardTableNotice =>
        "💡 The extracted data doesn't appear to be in a standard table format. You can download it as a text file."
      case NotTableFormatNotice =>
        "💡 The extracted data doesn't appear to be in a table format. You can download it as a text file and format it manually in Excel."
      case ManualFormatNotice =>
        "💡 Download the text file and open it in Excel to format the data manually."
    }
  }

  datatype Offer = Offer(textFile: Download, spreadsheet: Option<Download>, notice: Option<Notice>)

  /** The download tab for the answer `text` of an upload whose file-name stem
      is `stem`. `frameBuilds(columns, rows)` says whether building the pandas
      frame with those columns and writing it as a workbook succeeds; when it
      raises, the exception handler shows the manual-format notice. */
  function OfferDownloads(text: string, stem: string, frameBuilds: (Row, seq<Row>) -> bool): (offer: Offer)
    ensures offer.textFile == Download(stem + TextSuffix, TextMime, AnswerText(text))
    ensures offer.spreadsheet.Some? != offer.notice.Some?
    ensures offer.spreadsheet.Some? <==>
      Reconstruct(text).Table? && frameBuilds(Reconstruct(text).header, Reconstruct(text).body)
    ensures offer.spreadsheet.Some? ==>
      offer.spreadsheet.value == Download(stem + SheetSuffix, SheetMime,
        Workbook(Reconstruct(text).header, Reconstruct(text).body))
    ensures offer.notice == Some(NotTableFormatNotice) <==> Reconstruct(text) == NotTableFormat
    ensures offer.notice == Some(NotStandardTableNotice) <==> Reconstruct(text) == NotStandardTable
    ensures offer.notice == Some(ManualFormatNotice) <==>
      Reconstruct(text).Table? && !frameBuilds(Reconstruct(text).header, Reconstruct(text).body)
  {
    var textFile := Download(stem + TextSuffix, TextMime, AnswerText(text));
    match Reconstruct(text)
    case NotTableFormat => Offer(textFile, None, Some(NotTableFormatNotice))
    case NotStandardTable => Offer(textFile, None, Some(NotStandardTableNotice))
    case Table(header, body) =>
      if frameBuilds(header, body) then
        Offer(textFile, Some(Download(stem + SheetSuffix, SheetMime, Workbook(header, body))), None)
      else
        Offer(textFile, None, Some(ManualFormatNotice))
  }

  /** A spreadsheet, when offered, has the header as its columns and at least
      one data row, none of them blank. */
  lemma SpreadsheetShape(text: string, stem: string, frameBuilds: (Row, seq<Row>) -> bool)
    requires OfferDownloads(text, stem, frameBuilds).spreadsheet.Some?
    ensures var p := OfferDownloads(text, stem, frameBuilds).spreadsheet.value.payload;
      && p.Workbook? && |p.rows| >= 1 && HasContent(p.columns)
      && forall row :: row in p.rows ==> HasContent(row)
  {
  }

  /** Whitespace-only answers are never offered as a spreadsheet, whatever the frame builder does. */
  lemma BlankAnswerHasNoSpreadsheet(text: string, stem: string, frameBuilds: (Row, seq<Row>) -> bool)
    requires AllSpace(text)
    ensures OfferDownloads(text, stem, frameBuilds).spreadsheet == None
    ensures OfferDownloads(text, stem, frameBuilds).notice == Some(NotTableFormatNotice)
  {
    BlankTextIsNotTable(text);
  }
}

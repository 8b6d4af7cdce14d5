/** `XTopicAnalyzer.save_to_excel`: nothing is written for an empty table;
    otherwise the table goes to one workbook, named by the caller or by the
    timestamp, with every column sized by the width pass. The file itself is the
    record of what was written. */
module Export {
  import opened Text
  import opened Frame

  /** A file written by a `save_to_excel` variant: a workbook with the column
      widths it was given, or a plain CSV file; both hold the rows in order under
      the fixed columns. */
  datatype Written =
    | Workbook(filename: string, rows: seq<Row>, widths: seq<nat>)
    | CsvFile(filename: string, rows: seq<Row>)

  const WorkbookPrefix: string := "x_analysis_"
  const XlsxExtension: string := ".xlsx"

  /** `save_to_excel(df, filename)`, with `timestamp` the formatted current time. */
  method SaveToExcel(rows: seq<Row>, filename: Option<string>, timestamp: string)
    returns (written: Option<Written>)
    ensures written.None? <==> rows == []
    ensures written.Some? ==> written.value.Workbook? && written.value.rows == rows
    ensures written.Some? && filename.Some? ==> written.value.filename == filename.value
    ensures written.Some? && filename.None? ==>
              written.value.filename == WorkbookPrefix + timestamp + XlsxExtension
    ensures written.Some? ==>
              && |written.value.widths| == |Columns|
              && forall c :: 0 <= c < |Columns| ==>
                   written.value.widths[c] == ColumnWidth(SheetColumns(rows)[c])
  {
    if rows == [] {
      return None;
    }
    var name := if filename.Some? then filename.value else "";
    if filename.None? {
      name := WorkbookPrefix + timestamp + XlsxExtension;
    }
    var widths := AutoWidths(SheetColumns(rows));
    written := Some(Workbook(name, rows, widths));
  }
}

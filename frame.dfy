/** The result table both analyzers hand to `save_to_excel`: one row per
    analysed post under a fixed column schema, the worksheet pandas makes of it,
    and the column-width pass both `save_to_excel` variants run over that sheet. */
module Frame {
  import opened Text

  /** One `analyzed_post` dictionary (equally one entry of the mock data). */
  datatype Row = Row(
    topic: string,
    author: string,
    authorVerified: bool,
    postDate: string,
    postLink: string,
    shortSummary: string,
    originalText: string,
    engagement: string)

  /** The column names, in the order the dictionaries list their keys. */
  const Columns: seq<string> :=
    ["Topic", "Author", "Author Verified", "Post Date", "Post Link",
     "Short Summary", "Original Text", "Engagement"]

  const MaxColumnWidth: nat := 50
  const WidthPadding: nat := 2

  /** `str(b)` for a Python bool: "True" or "False", one for each value. */
  function BoolText(b: bool): (r: string)
    ensures r == "True" || r == "False"
    ensures r == "True" <==> b
  {
    if b then "True" else "False"
  }

  /** `str(cell.value)` for the cell of `row` under column `c`: each column
      name holds the field of the same name, the verified flag as its text. */
  function CellText(row: Row, c: nat): (r: string)
    requires c < |Columns|
    ensures Columns[c] == "Topic" ==> r == row.topic
    ensures Columns[c] == "Author" ==> r == row.author
    ensures Columns[c] == "Author Verified" ==> (r == "True" <==> row.authorVerified)
    ensures Columns[c] == "Author Verified" ==> r == "True" || r == "False"
    ensures Columns[c] == "Post Date" ==> r == row.postDate
    ensures Columns[c] == "Post Link" ==> r == row.postLink
    ensures Columns[c] == "Short Summary" ==> r == row.shortSummary
    ensures Columns[c] == "Original Text" ==> r == row.originalText
    ensures Columns[c] == "Engagement" ==> r == row.engagement
  {
    match c
    case 0 => row.topic
    case 1 => row.author
    case 2 => BoolText(row.authorVerified)
    case 3 => row.postDate
    case 4 => row.postLink
    case 5 => row.shortSummary
    case 6 => row.originalText
    case _ => row.engagement
  }

  /** `worksheet.columns` after `to_excel(index=False)`, each cell as its text:
      per column, the header cell, then one cell per row in row order. */
  function SheetColumns(rows: seq<Row>): (columns: seq<seq<string>>)
    ensures |columns| == |Columns|
    ensures forall c :: 0 <= c < |columns| ==>
              |columns[c]| == |rows| + 1 && columns[c][0] == Columns[c]
    ensures forall c, i :: 0 <= c < |columns| && 0 <= i < |rows| ==>
              columns[c][i + 1] == CellText(rows[i], c)
  {
    seq(|Columns|, c requires 0 <= c < |Columns| =>
      [Columns[c]] + seq(|rows|, i requires 0 <= i < |rows| => CellText(rows[i], c)))
  }

  /** `max_length` after the loop over one column's cells: the longest text,
      starting from 0. */
  function MaxLength(cells: seq<string>): (m: nat)
    ensures forall i :: 0 <= i < |cells| ==> |cells[i]| <= m
    ensures m == 0 || exists i :: 0 <= i < |cells| && |cells[i]| == m
  {
    if cells == [] then 0
    else Max(MaxLength(cells[..|cells| - 1]), |cells[|cells| - 1]|)
  }

  /** `min(max_length + 2, 50)`: the width set for one column. It lies in
      [2, 50]; it is at least every cell's own padded and capped length, and is
      2, the cap, or one cell's length plus 2. It reaches the cap only when some
      cell's padded length does. */
  function ColumnWidth(cells: seq<string>): (w: nat)
    ensures WidthPadding <= w <= MaxColumnWidth
    ensures forall i :: 0 <= i < |cells| ==> Min(|cells[i]| + WidthPadding, MaxColumnWidth) <= w
    ensures w < MaxColumnWidth ==> forall i :: 0 <= i < |cells| ==> |cells[i]| + WidthPadding <= w
    ensures || w == WidthPadding || w == MaxColumnWidth
            || exists i :: 0 <= i < |cells| && |cells[i]| + WidthPadding == w
    ensures w == MaxColumnWidth ==> exists i :: 0 <= i < |cells| && |cells[i]| + WidthPadding >= MaxColumnWidth
  {
    Min(MaxLength(cells) + WidthPadding, MaxColumnWidth)
  }

  /** The nested loop of `save_to_excel`: for each column, a running maximum of
      its cell lengths, then the padded and capped width. */
  method AutoWidths(columns: seq<seq<string>>) returns (widths: seq<nat>)
    ensures |widths| == |columns|
    ensures forall c :: 0 <= c < |columns| ==> widths[c] == ColumnWidth(columns[c])
  {
    widths := [];
    var c := 0;
    while c < |columns|
      invariant c <= |columns|
      invariant |widths| == c
      invariant forall k :: 0 <= k < c ==> widths[k] == ColumnWidth(columns[k])
    {
      var column := columns[c];
      var maxLength := 0;
      var i := 0;
      while i < |column|
        invariant i <= |column|
        invariant maxLength == MaxLength(column[..i])
      {
        assert column[..i + 1][..i] == column[..i];
        if |column[i]| > maxLength {
          maxLength := |column[i]|;
        }
        i := i + 1;
      }
      assert column[..i] == column;
      widths := widths + [Min(maxLength + WidthPadding, MaxColumnWidth)];
      c := c + 1;
    }
  }
}

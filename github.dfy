/** The published pages (github.py): the seven-column daily table and the
    per-day folder names. */
module GithubPages {
  import opened Wrappers
  import opened Text
  import opened Numbers
  import opened Seqs
  import opened Html
  import DayGen

  /** The table header, one title per shown column. */
  const HeaderColumns: seq<string> :=
    ["Fixture", "Pick", "AI Confidence", "OLBG Confidence", "Oddspedia Confidence", "Odds", "Result"]

  const NoData: string := "No data found."

  /** The span the page's placeholder is written with. */
  const WrittenSpan: nat := 5

  /** The seven cells of `create_html_table_row`: the daily report's five,
      then the odds and the result, shown as given. */
  function RowCells(row: Row): seq<string> {
    [FixtureCell(row), PickCell(row),
     FormatConfidence(Cell(row, "AI_Confidence")),
     FormatConfidence(Cell(row, "OLBG_Confidence")),
     FormatConfidence(Cell(row, "Oddspedia_Confidence")),
     FormatOdds(Cell(row, "Odds")),
     FormatOdds(Cell(row, "Result"))]
  }

  function CreateRow(row: Row): string {
    TableRow(RowCells(row))
  }

  /** Every record becomes a row, in order. */
  function RowsHtml(rows: seq<Row>): string {
    Concat(Map(rows, CreateRow))
  }

  /** The table body as `generate_html_file` writes it: the placeholder
      spans five columns of a seven-column table. */
  function TableBodyAsWritten(rows: seq<Row>): string {
    var all := RowsHtml(rows);
    if all != "" then all else Placeholder(WrittenSpan, NoData)
  }

  /** The table body with the placeholder spanning every header column. */
  function TableBody(rows: seq<Row>): string {
    var all := RowsHtml(rows);
    if all != "" then all else Placeholder(|HeaderColumns|, NoData)
  }

  /** Each row has one cell per header column. */
  lemma ColumnsAgree(row: Row)
    ensures |RowCells(row)| == |HeaderColumns|
  {
  }

  /** The first five cells are the daily report's row. */
  lemma SharesDailyCells(row: Row)
    ensures RowCells(row)[..5] == DayGen.RowCells(row)
  {
  }

  /** The odds and result cells are N/A exactly for a missing or blank
      value, and otherwise show the value unstripped. */
  lemma ValueCells(row: Row, k: nat)
    requires k == 5 || k == 6
    ensures var col := if k == 5 then "Odds" else "Result";
      (RowCells(row)[k] == NaCell <==> Blank(Cell(row, col))) &&
      (!Blank(Cell(row, col)) ==> RowCells(row)[k] == OddsOpen + Cell(row, col).value + CellClose)
  {
    var col := if k == 5 then "Odds" else "Result";
    FormatOddsNa(Cell(row, col));
  }

  lemma RowsStart(rows: seq<Row>)
    ensures forall k :: 0 <= k < |Map(rows, CreateRow)| ==>
      Map(rows, CreateRow)[k] != [] && Map(rows, CreateRow)[k][0] == '\n'
  {
    forall k | 0 <= k < |rows|
      ensures Map(rows, CreateRow)[k] != [] && Map(rows, CreateRow)[k][0] == '\n'
    {
      TableRowStart(RowCells(rows[k]));
    }
  }

  /** The placeholder appears exactly for an empty table; otherwise every
      record is shown. */
  lemma PlaceholderIffEmpty(rows: seq<Row>)
    ensures TableBody(rows) == Placeholder(|HeaderColumns|, NoData) <==> rows == []
    ensures rows != [] ==> TableBody(rows) == TableBodyAsWritten(rows) == Concat(Map(rows, CreateRow))
  {
    RowsStart(rows);
    ConcatStart(Map(rows, CreateRow), '\n');
    PlaceholderStart(|HeaderColumns|, NoData);
  }

  /** As written, the placeholder of an empty table spans fewer columns
      than the header has. */
  lemma AsWrittenSpanShort()
    ensures SpanOf(TableBodyAsWritten([])) == Some(WrittenSpan)
    ensures WrittenSpan < |HeaderColumns|
  {
    assert Map([], CreateRow) == [];
    SpanOfPlaceholder(WrittenSpan, NoData);
  }

  /** With the span taken from the header, the placeholder spans exactly
      the columns every row has. */
  lemma PlaceholderSpansRow(rows: seq<Row>, row: Row)
    requires rows == []
    ensures SpanOf(TableBody(rows)) == Some(|RowCells(row)|)
  {
    assert Map(rows, CreateRow) == [];
    SpanOfPlaceholder(|HeaderColumns|, NoData);
  }

  /** `today.strftime("%Y-%m")`. */
  function MonthPrefix(year: nat, month: nat): string {
    ZeroPad(year, 4) + "-" + ZeroPad(month, 2)
  }

  /** `get_day_folder`: the month's prefix and the day padded to two digits. */
  function DayFolder(year: nat, month: nat, day: nat): string {
    MonthPrefix(year, month) + "-" + ZeroPad(day, 2)
  }

  lemma NoDash(s: string)
    requires AllDigits(s)
    ensures '-' !in s
  {
    forall i | 0 <= i < |s| ensures s[i] != '-' { assert IsDigit(s[i]); }
  }

  /** Three digit strings joined by dashes split back into the three. */
  lemma SplitDashed(a: string, b: string, c: string)
    requires AllDigits(a) && AllDigits(b) && AllDigits(c)
    ensures SplitOn(a + "-" + b + "-" + c, '-') == [a, b, c]
  {
    NoDash(a);
    NoDash(b);
    NoDash(c);
    assert a + "-" + b + "-" + c == a + ['-'] + (b + ['-'] + c);
    SplitOnFirst(a, '-', b + ['-'] + c);
    SplitOnFirst(b, '-', c);
  }

  /** The folder name splits at its dashes into the year, the month and the
      day, which read back as the numbers they were written from. */
  lemma DayFolderRoundTrip(year: nat, month: nat, day: nat)
    ensures var parts := SplitOn(DayFolder(year, month, day), '-');
      |parts| == 3 &&
      ParseInt(parts[0]) == Some(year as int) &&
      ParseInt(parts[1]) == Some(month as int) &&
      ParseInt(parts[2]) == Some(day as int)
  {
    SplitDashed(ZeroPad(year, 4), ZeroPad(month, 2), ZeroPad(day, 2));
    ParseZeroPad(year, 4);
    ParseZeroPad(month, 2);
    ParseZeroPad(day, 2);
  }

  /** A day below 100 is written with exactly two digits. */
  lemma DayTwoDigits(day: nat)
    requires day < 100
    ensures |ZeroPad(day, 2)| == 2
  {
    if day >= 10 {
      assert NatToString(day) == NatToString(day / 10) + [DigitChar(day % 10)];
    }
  }

  /** Different days of a month get different folders. */
  lemma DayFolderInjective(year: nat, month: nat, d1: nat, d2: nat)
    requires DayFolder(year, month, d1) == DayFolder(year, month, d2)
    ensures d1 == d2
  {
    DayFolderRoundTrip(year, month, d1);
    DayFolderRoundTrip(year, month, d2);
  }
}
